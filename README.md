# market close — a Dafny model of the data part of `main.py`

The "market" bot answers `/send ddmmyy` by building a closing-price
snapshot for that date, e-mailing it as a spreadsheet and telling every
registered chat to check the mail. The snapshot holds US Treasury yields,
four stock indices, the dollar index and two commodities, plus two
yield-curve spreads. This project models the logic that turns the request
into that snapshot:

- `check_date`, the request validator. It is modelled with Python's
  short-circuiting `and` and with `int()` raising on a malformed field, so
  its result is `Option<bool>` and `None` stands for the `ValueError`.
- The download window. The request is rewritten as `dd/mm/20yy` and parsed
  with `strptime("%d/%m/%Y")`; the directive patterns are written out. The
  day before is computed as `- timedelta(days=1)` on the Gregorian
  calendar and formatted back with `strftime`.
- The resolution fold over the fixed catalog, in class order bonds,
  indices, commodities. It is written as methods with loops appending to
  the per-class index lists and frames. The market-data client is an
  oracle: per ticker, a retrieval gives a close, is unavailable (the
  `except` branch), or the search itself raises and aborts the run.
- The spread step. `10-2` is the 10-year close minus the 2-year close and
  `20-5` the 20-year minus the 5-year. Each is appended only when both of
  its tenors were resolved.
- The summary assembly. The non-empty class frames are concatenated, and
  the group label list is built by the `"Bonds," * nb + ...` string trick:
  each repeated string is split on commas on its own, and the pieces are
  joined and filtered. pandas' positional alignment of that list
  against the rows is modelled, with a missing label as `None`.
- The whole run, `MarketClose.GetMarketClose`, is proved equal to the
  specification function `MarketClose.Run`, which is then characterised
  by lemmas.

Modules: `Wrappers` (Option), `PyStr` (Python slicing, `int()`, `str * n`,
`split`, `filter(None, …)`), `Dates`, `Catalog`, `Resolution`, `Spreads`,
`Report`, `MarketClose`.

Two behaviours of `get_market_close` a reader may not expect, both
modelled as written:
- Concatenating no frames raises, so a run with no resolved row ends with
  `EmptyReport` instead of an empty report.
- A failed ticker search aborts the run (`SearchAborted`), because the
  search sits outside the `try`.

## Model

| member | source | states |
|---|---|---|
| Dates.CheckDate | main.py:36-45 | the validator's definition; its own contract says an accepted request has at least five characters, and it is characterised by `CheckDateDigits`, `CheckDateShortCircuit`, `CheckDateRaises` and the two admission lemmas |
| Dates.CloseText | main.py:97 | the definition of `close_date`: four characters more than the clamped six-character prefix, with `/` at positions 2 and 5 and `20` after it for a full request; characterised by `CloseYearRange` and `CloseDateOfDigits` |
| Dates.FormatDate | main.py:100 | the definition of `strftime("%d/%m/%Y")`: ten characters, `/` at positions 2 and 5, and fields that the day, month and year directives read back as the date; `StrpTimeFormat` is its round trip |
| PyStr.ParseInt | main.py:39-44 | the definition of `int()`: a blank text raises, and a text of ASCII digits is its decimal value; `ParseIntTwoDigits` is the case the validator uses |
| PyStr.Slice | main.py:39-44 | Python's `s[a:b]`: both bounds clamp to the length, so a short request gives a short or empty field, never an error |
| PyStr.Repeat | main.py:202-204 | the definition of `str * n`: `n` times the length of the string; `SplitRepeat` characterises its split |
| PyStr.Split | main.py:205 | the definition of `str.split(sep)`: one more piece than there are separators, and no piece contains the separator; `SplitWord` and `SplitRepeat` characterise it further |
| PyStr.NonEmpty | main.py:205 | the definition of `filter(None, …)`: a string is kept exactly when it was in the list and is not empty |
| Resolution.ResolvedRows | main.py:116-133 | the definition of a class's resolved rows: no more rows than list entries; characterised by `ResolvedSubsequence`, `ResolvedMembers`, `ResolvedValues` and `ResolvedIsolation` |
| Spreads.SpreadRows | main.py:139-151 | the definition of the spread rows: at most two, each named `10-2` or `20-5`; characterised by `SpreadPresence`, `SpreadLayout` and `SpreadsOfResolved` |
| Report.GroupLabels | main.py:202-205 | the definition of the label list: no label is empty or holds a comma; `GroupLabelsBlocks` and `GroupLabelsMonotone` characterise it |
| Report.Summary | main.py:188-207 | the definition of the summary: it fails exactly when no class has a row, and otherwise has one row per concatenated row, with the same names in order; `SummaryAligned` characterises its labels |
| MarketClose.Run | main.py:93-207 | the definition of a run: it is `BadDate` exactly when the close date does not parse and `SearchAborted` exactly when a search raises, and a summary keeps the window and is never empty; `RunOutcome` characterises it |
| Dates.CheckDateDigits | main.py:36-45 | on six digits, the validator holds exactly when day is 1..31, month 1..12 and year 1..25 |
| Dates.CheckDateShortCircuit | main.py:36-45 | a `00` day field is rejected before the later fields are read, so nothing after it can raise |
| Dates.CheckDateRaises | main.py:36-45 | the day field `ab` makes the validator raise, whatever follows |
| Dates.CheckDateAdmitsMissingDay | main.py:36-45 | `310222` passes the validator although 31 February does not exist, and the date parser then rejects it |
| Dates.CheckDateAdmitsShortYear | main.py:36-45 | a five-character request passes the validator, and the parser rejects its one-digit year |
| Dates.DaysInMonth | main.py:98-99 | every month has 28 to 31 days |
| Dates.PrevDay | main.py:98-99 | the day before a valid date other than 1 January of year 1 is a valid, earlier date, in the same year unless the date is 1 January |
| Dates.NextOfPrev | main.py:98-99 | one day back and one day forward returns to the same date |
| Dates.PrevOfNext | main.py:98-99 | one day forward and one day back returns to the same date |
| Dates.PrevDayImmediate | main.py:98-99 | no valid date lies strictly between a date and its day before: earlier means the day before or earlier still |
| Dates.PrevDayMarchFirst | main.py:98-99 | the day before 1 March is 29 February in a leap year and 28 February otherwise |
| Dates.PrevDayNewYear | main.py:98-99 | the day before 1 January is 31 December of the previous year |
| Dates.StrpTime | main.py:98-99 | a parsed `dd/mm/yyyy` text is always a valid date |
| Dates.Pad4 | main.py:100 | the four-digit year text parses back to the year |
| Dates.StrpTimeFormat | main.py:98-100 | formatting a date with `%d/%m/%Y` and parsing it again gives the same date |
| Dates.CloseYearRange | main.py:97-99 | any close date that parses lies in the years 2000 to 2099 |
| Dates.CloseDateOfDigits | main.py:97-99 | for six digits the validator accepts, the close date parses exactly when day, month and `20yy` form a real date, and then to that date |
| Dates.DownloadWindow | main.py:97-100 | a window exists exactly when the close date parses; `to` is the rewritten request; `from` is exactly the `strftime` text of the day before it, and parses back to that day |
| PyStr.ParseIntTwoDigits | main.py:39-44 | `int()` of two digits is their decimal value |
| PyStr.SplitRepeat | main.py:202-205 | splitting `label,` repeated `n` times on commas gives `n` labels and one empty piece |
| Catalog.CatalogDistinct | main.py:104-108 | no ticker is listed twice, not even across classes, and neither spread name is a ticker |
| Resolution.ResolveClass | main.py:116-135 | one class's loop over its ticker list: it completes exactly when every search succeeds, and then its frame is the resolved rows and its index list names them |
| Resolution.ResolveAll | main.py:112-135 | the nested loops produce the expected snapshot of every class when every search succeeds, and abort otherwise |
| Resolution.Expected | main.py:112-135 | in the snapshot, each class's index list names its frame's rows one to one |
| Resolution.ResolvedSubsequence | main.py:112-135 | a class's resolved names are a subsequence of its catalog list, in catalog order |
| Resolution.ResolvedMembers | main.py:121-133 | a ticker is resolved exactly when it is in the list and its retrieval gave a close |
| Resolution.ResolvedValues | main.py:121-133 | every resolved row carries the close its retrieval returned |
| Resolution.ResolvedAppend | main.py:116-133 | resolving two lists one after the other is resolving their concatenation |
| Resolution.ResolvedHead | main.py:116-133 | a quoted first ticker is the first row |
| Resolution.ResolvedAllQuoted | main.py:116-133 | when every ticker is quoted, every ticker is resolved in order |
| Resolution.ResolvedNoneQuoted | main.py:116-133 | when no ticker is quoted, the frame is empty |
| Resolution.ResolvedEmpty | main.py:116-133 | a class's frame is empty exactly when none of its tickers was quoted |
| Resolution.ResolvedDistinct | main.py:116-133 | distinct tickers give distinct row names |
| Resolution.ResolvedIsolation | main.py:121-133 | when one ticker's retrieval fails instead, the frame is the old one without exactly that ticker's row |
| Resolution.ExpectedIsolation | main.py:112-135 | one more failed retrieval keeps the run going, removes only that ticker's row from its class and changes no other class |
| Resolution.ResolvedSameSource | main.py:116-133 | a class's frame depends only on the retrievals of that class |
| Resolution.Zip | main.py:134-135 | setting the index list on the closes pairs each name with its close |
| Spreads.IndexOf | main.py:139-151 | the row position found for a label is its first occurrence |
| Spreads.CloseOfPrefix | main.py:139-151 | appending rows does not change the close read for a label already present |
| Spreads.CloseOfResolved | main.py:139-151 | the close read for a resolved ticker is its quote |
| Spreads.AddSpreads | main.py:139-151 | the spread step appends the spread rows after the tenor rows and keeps the index list naming the rows |
| Spreads.SpreadPresence | main.py:139-151 | a spread row appears exactly when both of its tenors are rows of the frame |
| Spreads.SpreadLayout | main.py:139-151 | at most two spread rows, `10-2` before `20-5`, each the long tenor's close minus the short tenor's |
| Spreads.SpreadsOfResolved | main.py:118-151 | `10-2` is present exactly when the 10- and 2-year yields were quoted and holds their difference; likewise `20-5` |
| Report.GroupLabelsBlocks | main.py:202-205 | the label list is `nb` copies of `Bonds`, then `ni` of `Indices`, then `nc` of `Commodities` |
| Report.GroupLabelsMonotone | main.py:202-205 | the label list has `nb + ni + nc` entries and never interleaves |
| Report.ConcatNonEmpty | main.py:188-198 | empty classes drop out of the concatenation, and nothing is left exactly when every class is empty |
| Report.SummaryAligned | main.py:188-207 | with aligned index lists, every row gets its own class's label; the summary fails only when there is no row |
| Report.LabelledMonotone | main.py:188-207 | labelled rows all carry a label and follow the class order |
| MarketClose.GetMarketClose | main.py:93-207 | the data part of a run computes exactly the specified outcome |
| MarketClose.RunOutcome | main.py:93-207 | a run fails on a bad date, then on a failed search, then on an empty report; otherwise it yields the labelled bonds-with-spreads, index and commodity rows |
| MarketClose.ReportGroupsMonotone | main.py:188-207 | every report row has a label, and the labels follow the class order |
| MarketClose.ReportCount | main.py:188-207 | the report has one row per resolved ticker plus one per spread |
| MarketClose.ReportNames | main.py:188-207 | the report's names are the resolved bond names, the spreads, then the index and commodity names |
| MarketClose.ReportNamesDistinct | main.py:104-108 | no name appears twice in a report |
| MarketClose.ReportSpreadPresence | main.py:139-151 | the report names `10-2` exactly when the 10- and 2-year yields were quoted, and `20-5` exactly when the 20- and 5-year were |
| MarketClose.ReportEmptyFrames | main.py:188-198 | the report is empty exactly when every class's frame is |
| MarketClose.ReportEmpty | main.py:188-198 | the report is empty exactly when no ticker of any class was quoted |
| MarketClose.NothingQuoted | main.py:192-198 | when every search answers and nothing is quoted, a run on a good date ends with no report, and a bad date still ends with the date error |
| MarketClose.AllBondsQuoted | main.py:139-151 | with every tenor quoted at the sample yields, the bonds block is the eight tenors then `10-2` at 0.50 and `20-5` at 0.60 |
| MarketClose.OnlyOneYearQuoted | main.py:116-151 | with only the 1-year quoted, the bonds block is that one row and there is no spread |
| MarketClose.FirstIndexAndCommodity | main.py:188-207 | a quoted S&P 500 and gold each open their class's labelled block, after all bond rows |

## Left out

- The Telegram handlers `start`, `help`, `send`, `txt` and `main`, and the broadcast loop: bot and network plumbing. The chat-id file in `start` is file I/O, and it is not a deduplication, because `"a+"` reads from the end of the file.
- `send_email`: SMTP and MIME.
- The investpy client: it is the oracle `Market`, one `QuoteSource` per download window. What a retrieval does with the window, and that it keeps only the last row (`.iloc[-1:]`), are inside the oracle.
- A retrieval that returns an empty frame without raising: its `.iloc[-1:]` adds no row but the ticker is still appended to the index list. The index list is then longer than the frame, so `set_index` at main.py:134-135 fails on the length mismatch and the run ends. The oracle only gives a close or an error, so this case is not modelled. The `None` label that `Report.Summary` allows for a short label list therefore stands for a state no modelled run reaches (`Report.SummaryAligned`).
- The text file and the spreadsheet: tabulate, `.2f` formatting, and the xlsx writer and its layout.
- Floating point: closes and spreads are `real`.
- The other columns of a retrieved frame (open, high, low, volume, currency): only the close is reported. The spread rows leave those columns empty in the source.
- `int()` accepts non-ASCII Unicode digits and whitespace, and the `\d` in the `%d` and `%Y` patterns accepts non-ASCII digits; the model knows ASCII only.
- Dates.FormatDate: defined only for years from 1000. These are the only years it is used on, as close dates lie in 2000..2099, and `strftime` pads smaller years differently on different platforms.
- Dates.PrevDay: requires a date other than 1 January of year 1, where `timedelta` subtraction overflows. No close date can be that date.
- Spreads.AddSpreads: requires the spread labels not to be rows already. `.loc` would then overwrite instead of appending, and the catalog rules this out (`MarketClose.SpreadNamesFree`).
