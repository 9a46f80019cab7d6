# WhatsApp reminder dispatcher: selection and dispatch

The service keeps its reminders in a worksheet. Row 1 holds the headers, and every
later row is one person: "Nombre" (name), "Cargo" (role), a date under "Fecha" (or
one of its older spellings "Fecha (dd/mm/yy)" and "Fecha(dd/mm/yy)"), and "Enviado"
(the sent flag). Two routes read the sheet:

- `preview` lists the rows due today, or up to today, depending on `SEND_MODE`;
- `send_pending` sends each due row's reminder to every number in `DEST_NUMBERS` and
  marks the row "sí" once every send went through.

This project models that core in Dafny:

- `text.dfy` (module `Text`): Python's `str.strip()`, `str.lower()` and
  `str.split(",")`, with their properties.
- `dates.dfy` (module `Dates`):
  - dates and their order;
  - `parse_ddmmyy`, which strips its input and hands anything non-blank to the day-first
    parser. That parser is a parameter `dtparse`, and `None` stands for the exception it
    raises.
- `config.dfy` (module `Config`): the `DEST_NUMBERS` and `SEND_MODE` settings.
- `sheet.dfy` (module `Sheet`):
  - the worksheet as a class holding a header row and an array of records (each a
    `map<string, string>`);
  - `get_all_records`, `row_values(1)` and `update_cell`;
  - `headers.index(...)`, as `ColumnIndex`.
- `selection.dfy` (module `DueRows`):
  - the selection test both routes apply to each record, factored into one predicate
    (`RowDue`);
  - its list form (`Selection`);
  - the `preview` loop, as the methods `DueEntry`, `CollectPending` and `Preview`.
- `dispatch.dfy` (module `Dispatch`):
  - the `send_pending` loop;
  - the per-destination inner loop, where the network is an oracle
    `outcome(tableRow, destIndex)` that says whether that send returned without raising;
  - the write-back of "sí";
  - the route's reply.

The dispatch methods are proved against a specification function. `Pass` folds one
`Step` per selected record over a `Progress` value: whether the run stopped,
`sent`, the log of attempted sends, and the rows marked. The lemmas then relate `Pass`
to independent definitions. These are every message to every destination
(`AttemptLog`), and the confirmed records, meaning those none of whose sends raised
(`Confirmed`). From these the lemmas derive:

- which rows are marked;
- what `sent` lists;
- what the next run selects.

The model follows the code where the service's written design says otherwise:

- The design reads the header row once, before any row, and treats a missing
  "Enviado" column as a failure with no rows processed. The code looks the column up
  only after a record's messages all went through, once per such record (app.py:232-239).
  - So without the column, the first confirmed record's messages have already gone out
    when the route answers the error.
  - No earlier record of that pass can have been marked, because marking needs the
    column. The header row is read from the same sheet each time, and nothing else
    edits the sheet during a pass.
  - `Dispatch.PassWithoutSentColumn` and `Dispatch.PassStopsAtFirstConfirmed` state this.
- The design counts a destination as done when the send "returned success". The code
  ignores the return value and counts only an exception as a failure (app.py:225-230).
  The oracle has this meaning.

## Model

| member | source | states |
|---|---|---|
| Text.StripSpec | app.py:183-186 | `strip()` returns a string no longer than its input that neither starts nor ends with white space, and that is empty exactly when the input is all white space |
| Text.StripStripped | app.py:186 | a value with no surrounding white space is unchanged by `strip()` |
| Text.StripIgnoresPadding | app.py:183-186 | white space added around a cell's text does not change the stripped value |
| Text.TrimStartSpec | app.py:183 | the left half of `strip()` keeps a suffix of its input that does not start with white space |
| Text.TrimEndSpec | app.py:183 | the right half of `strip()` keeps a prefix of its input that does not end with white space |
| Text.TrimStartEmpty | app.py:61-63 | stripping the left side leaves nothing exactly when the text is all white space |
| Text.LowerChar | app.py:186 | one character's `lower()`: an upper-case letter moves 32 code points up, to its lower-case partner, and every other character is kept |
| Text.LowerSpec | app.py:186 | `lower()` keeps the length, lowers character by character and leaves no upper-case letter |
| Text.LowerIdempotent | app.py:186 | lowering an already lowered value changes nothing |
| Text.Split | app.py:25 | `split(",")` gives at least one piece, no piece holds a comma, and joining the pieces with commas gives the input back |
| Text.SplitJoin | app.py:25 | splitting a comma-join of comma-free pieces gives those pieces back |
| Text.SplitConcat | app.py:25 | splitting at one separator gives the pieces of the left part followed by the pieces of the right part |
| Dates.OnOrBeforeIsTotalOrder | app.py:193 | the `<=` used on dates is reflexive, antisymmetric, transitive and total |
| Dates.ParseDdmmyySpec | app.py:59-70 | a blank or empty value parses to no date without consulting the parser; any other value parses to what the day-first parser makes of its stripped text (the parser's `None` standing for its exception) |
| Dates.ParseIgnoresPadding | app.py:61 | white space around the date text does not change the parsed date |
| Config.NonEmptyStripped | app.py:25 | the kept pieces are no more than the pieces, none is empty or has surrounding white space, and none is kept exactly when every piece is blank |
| Config.NonEmptyStrippedOne | app.py:25 | one piece is kept as its stripped form, or dropped when it is blank |
| Config.NonEmptyStrippedConcat | app.py:25 | the comprehension handles the pieces one by one, in order: the kept pieces of a concatenation are the kept pieces of each part, concatenated |
| Config.NonEmptyStrippedMembers | app.py:25 | a number is a destination exactly when it is the stripped form of some piece that is not blank |
| Config.DestNumbers | app.py:25 | no destination is empty, has surrounding white space, or holds a comma; an unset variable gives no destinations |
| Config.DestNumbersOnePiece | app.py:25 | a value without a comma gives its stripped form as the only destination, or no destination when it is blank |
| Config.DestNumbersAppend | app.py:25 | the destinations of `x,y` are those of `x` followed by those of `y`; with the one-piece case this fixes the list for every value, order and repeats included |
| Config.NoDestinationsIff | app.py:204 | the route's "no destinations" error happens exactly when the configured value consists of commas and white space only |
| Config.SendMode | app.py:26 | each character of the mode is the lower-cased character of the variable's value (default "today"), so it has the value's length and no upper-case letter; an unset variable gives "today" |
| Sheet.ColumnIndex | app.py:237-239 | the column lookup fails exactly when the header is absent, and otherwise gives the first position holding it |
| Sheet.Worksheet.GetAllRecords | app.py:180 | the records are the data rows of the sheet, in table order |
| Sheet.Worksheet.HeaderRow | app.py:235 | the header row read is the sheet's row 1 |
| Sheet.Worksheet.UpdateCell | app.py:241 | writing cell (row, col) changes only that row's value under column `col`'s header, and leaves every other row as it was |
| DueRows.FirstFilledSpec | app.py:185 | the `or` chain over the date headers is empty exactly when every cell is empty or missing, and otherwise is the first non-empty cell |
| DueRows.DateColumnsFallThrough | app.py:185 | an empty "Fecha" falls through to "Fecha (dd/mm/yy)", then to "Fecha(dd/mm/yy)"; a non-empty cell, even white space, stops the search |
| DueRows.ExtractSpec | app.py:183-186 | a record's name and role have no surrounding white space, its sent flag has no upper-case letter, and it has a date only if its date text is not blank |
| DueRows.DueUpToEntries | app.py:182-194 | every entry the loop has collected after `n` records is the entry of a due record among them, on that record's table row (position + 2) |
| DueRows.DueUpToComplete | app.py:182-194 | every due record among the first `n` has its entry in the list |
| DueRows.DueUpToOrdered | app.py:182-194 | the collected entries follow table order: row numbers strictly increase |
| DueRows.DueUpToHasRow | app.py:182-194 | table row `i + 2` has an entry exactly when record `i` is due |
| DueRows.SelectionEntries | app.py:182-194 | every entry of `to_send` is the entry of a due record, carrying its row number, stripped name and role, and date |
| DueRows.SelectionOrdered | app.py:182-194 | `to_send` is in table order |
| DueRows.SelectedIffFieldsDue | app.py:186-193 | a record is listed exactly when its extracted fields pass the test |
| DueRows.SelectedIffDue | app.py:186-193 | a record is listed exactly when it is not marked "sí", has a date, and that date is in the mode's window |
| DueRows.NothingDueSelectsNothing | app.py:188-194 | a sheet none of whose records is due gives an empty `to_send` |
| DueRows.SentRowsNeverSelected | app.py:186-189 | a record whose stripped, lower-cased flag is "sí" is never listed, under any mode |
| DueRows.UndatedRowsNeverSelected | app.py:185-191 | a record is never listed when all of its date cells are empty or missing, when its date text is blank, or when the parser rejects it |
| DueRows.TodayModeSelectsToday | app.py:193 | in mode "today" a record is listed exactly when it is unsent and dated today |
| DueRows.UntilTodayModeSelectsUpToToday | app.py:193 | in mode "until_today" a record is listed exactly when it is unsent and dated on or before today |
| DueRows.OtherModesDueNothing | app.py:193 | under any other mode no record passes the test |
| DueRows.OtherModesSelectNothing | app.py:193 | any other mode lists nothing |
| DueRows.TodayWithinUntilToday | app.py:193 | every record "today" lists, "until_today" lists too |
| DueRows.SentMarkerSpellings | app.py:186-188 | a flag counts as sent exactly when, stripped, it is one of "sí", "sÍ", "Sí", "SÍ" |
| DueRows.DueEntry | app.py:183-194 | one pass of the loop body: a record is skipped when its flag is "sí", when it has no date, or when its date is outside the window; otherwise its entry, on row `i + 2`, is the next one of the selection |
| DueRows.CollectPending | app.py:181-194 | the `preview` loop builds exactly the selection of the records |
| DueRows.Preview | app.py:179-196 | `preview` answers today, the mode, and the selection of the sheet's current records |
| Dispatch.Attempts | app.py:225-227 | one record's sends: one per destination, in `DEST_NUMBERS` order, all with that record's message |
| Dispatch.SendToAll | app.py:224-230 | the inner loop tries every destination in order, even after a failure, and `ok_all` holds exactly when no send raised |
| Dispatch.DispatchRecord | app.py:222-243 | one due record is one `Step`. Its sends are logged. If all went through and "Enviado" is a header, only that record's "Enviado" cell becomes "sí" and the record joins `sent`; if the header is missing, the run stops. Otherwise the sheet is unchanged |
| Dispatch.HandleRecord | app.py:211-244 | the body of the `send_pending` loop: a record that is not due changes nothing, and a due one advances the run by one `Step`; the sheet stays the snapshot with the marked rows' flags set |
| Dispatch.DispatchAll | app.py:210-244 | the `send_pending` loop over one snapshot handles the selected records in order until the end or until the run stops; the sheet then holds the snapshot with exactly the marked rows' flags set to "sí" |
| Dispatch.SendPending | app.py:199-246 | no destinations: the error, no sends and an unchanged sheet. Otherwise the route answers the missing-column error when the run stopped, and else today, the mode, `sent` and `count == len(sent)`. The sends are the run's log, and the sheet is the snapshot with the marked rows set to "sí" |
| Dispatch.PassWithSentColumn | app.py:210-242 | with an "Enviado" column the run never stops, sends every selected record's message to every destination in order, and lists and marks exactly the confirmed records, in order |
| Dispatch.PassWithoutSentColumn | app.py:235-239 | without an "Enviado" column nothing is listed or marked; the run stops exactly when some record's sends all went through, and a run that does not stop has made every send |
| Dispatch.PassStopsAtFirstConfirmed | app.py:232-239 | a run stopped on the missing column stopped at the first record whose sends all went through, after sending the messages of the selected records up to and including it and no further |
| Dispatch.PassHaltedStable | app.py:239 | once the route has answered the error, later records change nothing |
| Dispatch.HaltedRunIsFinal | app.py:239 | a run stopped before record `i` ends in the same state after the remaining records |
| Dispatch.ConfirmedMembers | app.py:232 | a record is confirmed exactly when it is selected and none of its sends raised |
| Dispatch.ConfirmedAscending | app.py:232 | the confirmed records keep table order |
| Dispatch.MarkRowsAt | app.py:241 | marking changes only the "Enviado" cell of the marked rows, which then reads "sí"; every other row and cell is unchanged |
| Dispatch.MarkedRowIsNotDue | app.py:241 | a record whose "Enviado" cell was set to "sí" is not due, under any mode, date or parser |
| Dispatch.MarkRowsSelected | app.py:241 | after marking, a record is selected exactly when it was selected before and was not marked |
| Dispatch.MarkedRows | app.py:232-242 | with the column present, a row is marked exactly when it holds a selected record all of whose sends went through |
| Dispatch.MarkedIffConfirmed | app.py:224-242 | a record's row is marked exactly when the record is due and every send of its reminder went through |
| Dispatch.SentMatchesMarked | app.py:241-242 | `sent` lists the marked rows in the order they were written, which is ascending, each under the name of its selected record |
| Dispatch.SentEntries | app.py:242 | `sent` is in table order and every entry is the row and name of a selected record, so it is a subsequence of `to_send` for the same snapshot |
| Dispatch.PendingAfterRun | app.py:216-242 | after a run, a record is still pending exactly when it was due and some send of its reminder raised |
| Dispatch.RerunAfterFullSuccess | app.py:216-242 | when every send of a run went through, running again on the updated sheet selects nothing, so it sends nothing and marks nothing |

## Definitions

The functions the contracts above are stated in terms of, and the lines each one
computes:

| definition | source | computes |
|---|---|---|
| Text.Strip | app.py:183 | `str.strip()`: leading and trailing `isspace()` characters removed |
| Text.Lower | app.py:186 | `str.lower()`, character by character |
| Text.Split | app.py:25 | `str.split(",")` |
| Dates.ParseDdmmyy | app.py:59-70 | `parse_ddmmyy`: strip, no date for blank text, otherwise the day-first parser |
| DueRows.Cell | app.py:183 | `row.get(key) or ""` |
| DueRows.FirstFilled | app.py:185 | the `or` chain over the three date headers |
| DueRows.Extract | app.py:183-186 | name, role, parsed date and lower-cased flag of one record |
| DueRows.InWindow | app.py:193 | the mode's date test |
| DueRows.IsDue | app.py:188-193 | not sent, dated, and in the window |
| DueRows.RowDue | app.py:183-193 | the whole selection test on one record |
| DueRows.DueUpTo | app.py:182-194 | the entries the loop has collected after the first `n` records |
| DueRows.Selection | app.py:181-194 | `to_send` for a whole worksheet |
| Dispatch.Attempts | app.py:225-227 | the sends of one message |
| Dispatch.Step | app.py:222-243 | what one selected record does to the run's state |
| Dispatch.Pass | app.py:210-244 | the run's state after the selected records, in order |
| Dispatch.AttemptLog | app.py:225-227 | every selected record's message to every destination |
| Dispatch.Confirmed | app.py:232 | the selected records none of whose sends raised |
| Dispatch.MarkRow | app.py:241 | one `update_cell(row, col_enviado, "sí")` on the records |
| Dispatch.MarkRows | app.py:241 | the marks of a run, one after another |

## Left out

- HTTP and the Flask routes' plumbing (app.py:125-169, 249-254): status codes, JSON
  encoding, HTML, the QR screenshot and `/status`.
  - The replies are datatypes (`DueRows.PreviewReply`, `Dispatch.Reply`).
  - Dates in replies stay `Date` values rather than ISO strings.
- The WhatsApp/Selenium session (app.py:76-122): driver start-up, login polling and
  page waits. One send is the oracle `outcome(tableRow, destIndex)`, which says whether
  the send returned without raising; its return value is ignored, as the code does.
- Google Sheets access and credentials (app.py:36-57): the sheet is an in-memory
  `Worksheet`. gspread's conversion of numeric cells to numbers is not modelled: every
  cell is text. An exception from `get_all_records`, `row_values` or `update_cell` is
  not modelled either.
- Dates.ParseDdmmyy: dateutil's day-first parsing, including its two-digit-year rule,
  is the parameter `dtparse` and is not modelled. Only the strip and the blank check
  around it are.
- The time zone and the clock (app.py:29, 72-73): today's date is a parameter
  (`Policy.today`).
- `time.sleep` pacing (app.py:121, 244) and the error printout (app.py:230).
- Dispatch.MessageOf: the reminder text, with its emoji and the
  `strftime('%d/%m/%Y')` date, is not built. A message is the triple of name, role and
  date it embeds.
- Text.LowerChar: case mapping covers ASCII and Latin-1 upper-case letters only. Python's
  `lower()` also maps other scripts and multi-character cases. This is enough for
  comparing against "sí", but it is narrower than Python's.
- The start-up initialisation (app.py:125-132) and reading the environment: the
  settings are functions of the variable's value (`Config.DestNumbers`,
  `Config.SendMode`).
- Concurrent edits of the sheet during a pass: the header row and the records change
  only through the route's own writes.
- Aliasing between the worksheet's header and its records' keys: the model does not
  require every record to carry exactly the header's keys.
