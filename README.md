# Daily records: a verified model

A model, in Dafny, of the logic behind a small web application for logging daily
financial records. Each signed-in user keeps one row per calendar day, holding a
transfer amount, an afternoon-shift amount, a night-shift amount and a system amount.

What is modelled:

- **The record table** (`Records`). The table is an in-memory sequence of `DailyRecord`
  rows held by the class `RecordStore`. The class has the four server functions:
  - `GetRecords` is a query. It keeps the signed-in user's rows and orders them by date,
    newest first.
  - `CreateRecord`, `UpdateRecord` and `DeleteRecord` change the table in place.
    Every operation first passes the authentication middleware. A missing session
    fails with `Unauthorized` and leaves the table unchanged.
  - Updates and deletes touch only rows whose id *and* owner both match.
  - The table invariant `WellFormed` says three things: ids are unique, `(userId, date)`
    is unique, and every stored amount is at least 0. Every write preserves it.
  - The pure functions `OwnedBy`, `SortByDateDesc`, `SetWhere`, `DeleteWhere` and
    `FirstMatch` specify the operations, and lemmas relate them.
- **Input validation** (`Schema`). This is the zod schema shared by the record form, the
  edit dialog and `updateRecord`. It needs a date and four amounts that are each at least 0.
- **Amount inputs** (`Currency`, `FormInputs`).
  - `parseIDR` keeps only the decimal digits of its input, reads them in base 10, and falls
    back to 0.
  - The string branch of `formatIDR` uses the same parse.
  - Typing into an amount field stores `parseIDR` of the text.
- **Failure toasts** (`ErrorToast`). An `Error` whose text contains "unique" or "duplicate"
  shows "A record for this date already exists". Any other `Error` shows its own message.
  Any other thrown value shows the form's fallback text.
- **The record form and the edit dialog** (`RecordForm`, `EditRecordDialog`). These cover
  the default values and the prefill from the edited record. The edit payload always
  carries the record's own id. Each form has a submit sequence: schema, then server
  function, then toast.
- **The records table** (`RecordsTable`).
  - The difference column is transfer + afternoon + night − system.
  - A sign prefix and a colour are chosen from the difference.
  - The rendered structure is the empty state or the table, and the edit dialog exists only
    while a record is selected.
  - The component's four state fields (`selectedRecord`, `deleteDialogOpen`,
    `editDialogOpen`, `isDeleting`) belong to the class `TableState`, whose methods are the
    click, confirm, success and open-change handlers.

Behaviour worth knowing:
- A failed save or update shows the error's own message unless it mentions "unique" or
  "duplicate". The generic "Failed to save record" / "Failed to update record" appears only
  for a thrown value that is not an `Error`.
- A failed delete always shows "Failed to delete record", whatever was thrown.
- An update or delete whose id the user does not own affects no row and still succeeds.
  The update then returns no record.
- In the model, a database or transport error at a write is the parameter `fault`. A modelled
  fault strikes before the write takes effect, so the write throws that error's message and the
  table stays as it was. A response lost after a committed write is not modelled (see below).

## Model

| member | source | states |
|---|---|---|
| `Records.Authenticate` | src/data/records.ts:11-21 | fails with `Unauthorized` exactly when there is no session; otherwise yields the session's user |
| `Records.RecordStore.GetRecords` | src/data/records.ts:37-49 | without a session: `Unauthorized`; with one: a row is listed iff it is stored and owned by the user, each as often as stored, newest date first |
| `Records.OwnedBy` | src/data/records.ts:42-45 | the `userId` filter keeps every row of the user with its multiplicity and no row of anyone else |
| `Records.SortByDateDesc` | src/data/records.ts:46 | the `orderBy(desc(date))` result is ordered newest first and is a permutation of its input |
| `Records.InsertByDateDesc` | src/data/records.ts:46 | inserting one row into a newest-first list keeps it newest first and adds exactly that row |
| `Records.ListingIsDetermined` | src/data/records.ts:42-46 | over a well-formed table, every newest-first arrangement of the user's rows is the same sequence, so the listing does not depend on how the database sorts |
| `Records.SortedDescIsUnique` | src/data/records.ts:46 | two newest-first orderings of the same rows with one row per date are equal |
| `Records.OwnedRowsOnePerDate` | src/data/records.ts:42-45 | in a well-formed table a user's rows are stored once each and fall on distinct dates |
| `Records.RecordStore.CreateRecord` | src/components/record-form.tsx:60-86 | in order: no session gives `Unauthorized`; a schema failure gives its issues; a database or transport error gives that error; a date the user already has gives a unique violation; otherwise exactly one row is appended, with the fresh id, the user as owner, the chosen date and the four amounts unchanged, and it is returned. Failures leave the table unchanged; the invariant is kept |
| `Records.RecordStore.UpdateRecord` | src/data/records.ts:64-89 | authentication first, then the schema, then a database or transport error if one happens; if a matching row exists and another row of the user has the new date, a unique violation with no change; otherwise the table becomes `SetWhere` of the old one and the result is the first updated row, or nothing when no row matched |
| `Records.RecordStore.DeleteRecord` | src/data/records.ts:99-110 | without a session: `Unauthorized` and no change; with one, a database or transport error gives that error and no change; otherwise rows matching id and owner are removed and the result is `success: true` whether or not any matched |
| `Records.SetWhere` | src/data/records.ts:76-85 | a row matching both id and owner gets the new date and four amounts; every other row, including one with the same id and another owner, is unchanged; no row's id or owner changes |
| `Records.DeleteWhere` | src/data/records.ts:105-107 | removes exactly the rows matching both id and owner and keeps every other row with its multiplicity |
| `Records.FailureMessage` | src/data/records.ts:15-17 | the message of the thrown `Error`: "Unauthorized" without a session, the constraint text on a unique violation, the error's own text for a database or transport error, and for a validator rejection the issue messages starting with the first one (just that message when there is one issue) |
| `Records.FirstMatch` | src/data/records.ts:85-88 | `record[0]` of the returned rows: a stored row matching id and owner, absent exactly when none matches |
| `Records.UpdatedRowReturned` | src/data/records.ts:76-88 | the row returned after the update is the first matching row with the new date and amounts; nothing is returned when no row matched |
| `Records.ForeignIdUntouched` | src/data/records.ts:85-88 | for an id the user does not own, update and delete leave every row as it is and the update returns no record |
| `Records.DeletedRecordNotListed` | src/data/records.ts:105-109 | after a delete, the user's listing holds no row with the deleted id |
| `Records.CreatedRecordListedOnce` | src/components/record-form.tsx:72-85 | after an insert, the user's listing contains the new row exactly once, and it is the only listed row on that date |
| `Records.AppendPreservesWellFormed` | src/components/record-form.tsx:72-82 | appending a row with a fresh id, a free `(user, date)` and non-negative amounts keeps the table invariant |
| `Records.SetWherePreservesWellFormed` | src/data/records.ts:76-85 | an update with schema-valid values that causes no date clash keeps the table invariant |
| `Records.DeleteWherePreservesWellFormed` | src/data/records.ts:105-107 | a delete keeps the table invariant |
| `Schema.Issues` | src/components/record-form.tsx:38-44 | reports a field exactly when it fails its constraint (missing date; negative amount), with the schema's message; empty exactly when the input is accepted |
| `Schema.Parse` | src/data/records.ts:52-66 | the validator succeeds with the input unchanged exactly when a date is present and all four amounts are at least 0; otherwise it throws a non-empty list of failing fields |
| `Currency.DigitsOf` | src/components/record-form.tsx:104 | `replace(/\D/g, '')` yields only digits, the input itself when it is all digits, and nothing when it has no digit |
| `Currency.ParseInt10` | src/components/record-form.tsx:104 | `parseInt` of a digit string is NaN exactly when the string is empty |
| `Currency.ParseIDR` | src/components/record-form.tsx:103-105 | never negative (a minus sign is stripped like any non-digit); 0 for a string without digits |
| `Currency.ParseIDRReadsDigits` | src/components/edit-record-dialog.tsx:56-58 | the result is the positional base-10 value of the input's digits in order |
| `Currency.DecimalValueIsPositional` | src/components/record-form.tsx:104 | left-to-right digit reading equals the sum of digit times power of ten |
| `Currency.DecimalRoundTrip` | src/components/record-form.tsx:104 | reading the decimal numeral of `n` gives `n` |
| `Currency.ParseIDRReadsNumeral` | src/components/record-form.tsx:103-105 | any text whose digits spell the numeral of `n` (grouping dots, "Rp" and spaces aside) reads as `n` |
| `Currency.ParseIDRIgnoresNonDigit` | src/components/record-form.tsx:236-239 | inserting a non-digit anywhere in the text does not change the amount read |
| `Currency.ParseIDRAppendDigit` | src/components/record-form.tsx:238-239 | typing a digit at the end gives ten times the old amount plus that digit |
| `Currency.FormatIDR` | src/components/record-form.tsx:89-100 | a number is passed to the formatter as it is; a string is shown as the formatter's rendering of the positional value of its digits, and as the rendering of 0 when it has no digit |
| `Currency.FormatIDRTextIsParsed` | src/components/edit-record-dialog.tsx:42-46 | for a string, `formatIDR(s)` equals `formatIDR(parseIDR(s))` |
| `Currency.DisplayRoundTrip` | src/components/record-form.tsx:236-239 | if the formatter writes exactly the digits of the amount, re-reading the displayed text gives the amount back and redisplaying it gives the same text |
| `ErrorToast.Contains` | src/components/record-form.tsx:141-144 | `includes` holds exactly when the word occurs as a contiguous block of the message |
| `ErrorToast.FailureToast` | src/components/record-form.tsx:138-151 | an `Error` mentioning "unique" or "duplicate" shows the duplicate-date text; any other `Error` shows its own message; anything else shows the fallback |
| `ErrorToast.SaveFailureToast` | src/components/record-form.tsx:138-151 | the record form's toast: the duplicate-date text for an `Error` mentioning "unique" or "duplicate", the error's own message for any other `Error`, "Failed to save record" for anything else |
| `ErrorToast.UpdateFailureToast` | src/components/edit-record-dialog.tsx:95-106 | the edit dialog's toast: the duplicate-date text for an `Error` mentioning "unique" or "duplicate", the error's own message for any other `Error`, "Failed to update record" for anything else |
| `ErrorToast.SaveAndUpdateToastsAgree` | src/components/edit-record-dialog.tsx:95-106 | the edit dialog classifies an `Error` exactly as the record form does; only the non-`Error` fallback differs ("Failed to update record") |
| `FormInputs.TypeAmount` | src/components/edit-record-dialog.tsx:194-196 | typing into an amount field stores `parseIDR` of the text in that field and leaves the date and the other three amounts as they were; the typed field then meets the schema, and an accepted form stays accepted |
| `FormInputs.CaughtFrom` | src/data/records.ts:15-17 | a failure thrown by a server function reaches the client as an `Error` carrying the failure's message, so the toast never falls back to the form's fallback text |
| `FormInputs.UnauthorizedToast` | src/data/records.ts:15-17 | the `Unauthorized` error is shown with its own text |
| `FormInputs.UniqueViolationToast` | src/components/record-form.tsx:140-145 | the store's unique-constraint error is shown as "A record for this date already exists" |
| `RecordForm.DefaultValues` | src/components/record-form.tsx:123-129 | the default form holds the given day `today` and all four amounts 0, and the schema accepts it |
| `RecordForm.Submit` | src/components/record-form.tsx:130-153 | an invalid form is blocked with its issues and nothing is sent; otherwise the outcomes, each with the exact toast, are: no session shows "Unauthorized"; a database or transport error shows its message (or the duplicate-date text if the message mentions "unique" or "duplicate"); a taken date shows the duplicate-date text; a saved form appends exactly the new row. Every failure leaves the table unchanged |
| `EditRecordDialog.Prefill` | src/components/edit-record-dialog.tsx:73-80 | the form starts from the record's date and its four stored amounts; a stored record is accepted by the schema |
| `EditRecordDialog.Payload` | src/components/edit-record-dialog.tsx:86-91 | the update payload carries the edited record's own id and the form values |
| `EditRecordDialog.Submit` | src/components/edit-record-dialog.tsx:81-108 | blocked when invalid; "Unauthorized" without a session; a database or transport error shows its message, classified like any `Error`; the duplicate-date text on a clash; otherwise saved, even when no row matched, with the table set exactly as `SetWhere` on the record's id |
| `EditRecordDialog.UneditedSaveChangesNothing` | src/components/edit-record-dialog.tsx:73-91 | for a client at UTC+7 or west of it, saving the prefilled values of a stored record passes the schema, causes no date clash and leaves the table as it was |
| `RecordsTable.Difference` | src/components/records-table.tsx:124-128 | the difference is positive exactly when the three collected amounts exceed the system amount, negative exactly when they fall short, and added to the system amount gives the collected total |
| `RecordsTable.DifferenceTone` | src/components/records-table.tsx:150 | green exactly for a positive difference, red exactly for a negative one, no colour exactly at 0 |
| `RecordsTable.DifferenceClass` | src/components/records-table.tsx:150 | the cell's class is "text-right font-semibold text-green-600" above 0, "text-right font-semibold text-red-600" below 0 and "text-right font-semibold " at 0 |
| `RecordsTable.FormatDifference` | src/components/records-table.tsx:42-54 | the text starts with "+" exactly for a positive value, with "-" exactly for a negative one, with "R" exactly for 0, and ends with the formatted magnitude |
| `RecordsTable.FormatDifferenceNegated` | src/components/records-table.tsx:42-54 | `formatDifference(v)` and `formatDifference(-v)` differ only in the "+Rp " / "-Rp " prefix and agree at 0 |
| `RecordsTable.ColourAgreesWithSign` | src/components/records-table.tsx:150 | the cell is green exactly when the text shows "+", red exactly when it shows "-", uncoloured exactly at 0 |
| `RecordsTable.DifferenceExamples` | src/components/records-table.tsx:124-128 | 100000 + 50000 + 50000 − 180000 = 20000 shown with "+Rp "; with 220000 the result is −20000, shown with "-Rp "; with 200000 it is 0, shown with "Rp " |
| `RecordsTable.TableState.constructor` | src/components/records-table.tsx:62-65 | nothing selected, both dialogs closed, not deleting |
| `RecordsTable.TableState.Render` | src/components/records-table.tsx:100-216 | the empty-state message exactly when there are no records; otherwise one row per record in order, each with its id, its difference, the signed text `FormatDifference` gives and the class `DifferenceClass` gives; the delete dialog from the state flags, and the edit dialog exactly while a record is selected |
| `RecordsTable.TableState.HandleDeleteClick` | src/components/records-table.tsx:67-70 | selects the record and opens the delete dialog; the edit flag and `isDeleting` are unchanged |
| `RecordsTable.TableState.HandleEditClick` | src/components/records-table.tsx:72-75 | selects the record and opens the edit dialog; the delete flag and `isDeleting` are unchanged |
| `RecordsTable.TableState.HandleDeleteConfirm` | src/components/records-table.tsx:77-92 | with nothing selected nothing changes and no delete is sent; otherwise the selected id is deleted for the session's user, and afterwards, whether the delete succeeded or threw, `isDeleting` is false, the delete dialog is closed and the selection is cleared. The toast is "Record deleted successfully" on success, and "Failed to delete record" when there is no session or the database or transport throws, with the table unchanged |
| `RecordsTable.TableState.HandleEditSuccess` | src/components/records-table.tsx:94-98 | closes the edit dialog and clears the selection; nothing else changes |
| `RecordsTable.TableState.SetDeleteDialogOpen` | src/components/records-table.tsx:181 | the delete dialog's open-change sets only its flag; the selection stays |
| `RecordsTable.TableState.SetEditDialogOpen` | src/components/records-table.tsx:213 | the edit dialog's open-change sets only its flag; the selection stays |
| `RecordsTable.TableState.SubmitEdit` | src/components/records-table.tsx:209-216 | submitting the dialog of the selected record updates that record's id; it saves exactly when the form is valid, there is a session, no database or transport error happens and there is no date clash; on success the dialog closes and the selection clears, otherwise the state and the table stay as they were |

## Left out

- Time-zone handling. The Asia/Jakarta normalisation, `parseISO` and every date display format are not modelled. A date is the `yyyy-MM-dd` day string the server function would store. `None` stands for a missing or invalid date. So two day shifts in the source are not captured:
  - The default date is converted to Jakarta time twice. `getIndonesianDate()` (src/components/record-form.tsx:108-114) reads Jakarta's wall clock back as a client-local time, and `createRecord` (src/components/record-form.tsx:67-70) converts that instant to Jakarta again. The stored day is therefore Jakarta's date shifted by (7 − client offset) hours. A UTC client saving the default after 17:00 Jakarta time stores the next day. A UTC+9 client saving it before 02:00 Jakarta time stores the previous day. `RecordForm.DefaultValues` takes the day `today` as given.
  - The edit dialog's prefill shift is described under `EditRecordDialog.UneditedSaveChangesNothing` below.
- `EditRecordDialog.UneditedSaveChangesNothing` holds only for clients at UTC+7 or west of it. The prefill `parseISO(record.date)` is the client's local midnight, and `updateRecord` stores the Asia/Jakarta calendar day of that instant (src/data/records.ts:71-74). For a client at UTC+8 or later, such as Indonesia's WITA and WIT zones, local midnight falls on the previous day in Jakarta. An unedited save then moves the record back one day, or fails with the duplicate-date toast when the user already has a record on that day. The model treats the day string as passing through unchanged, so this shift is not modelled.
- The clock. "Today" in the default values is a parameter.
- The locale formatters (`Intl.NumberFormat` with the "Rp" symbol and digit grouping). They are the parameters `fmt` and `group`. `DisplayRoundTrip` assumes that the formatter writes exactly the digits of a non-negative amount.
- JavaScript numbers. Amounts are unbounded integers. The precision loss of `parseInt` on very long digit strings is not modelled, and neither are fractional amounts, which `z.number()` would accept.
- `crypto.randomUUID`. It is the parameter `newId`, required not to be a stored id.
- The authentication provider. The session is an optional user id.
- The database and ORM. The table is a sequence of rows.
- The store-maintained `createdAt` and `updatedAt` timestamps.
- The unique `(userId, date)` constraint. Its declaration is not part of this model. The model takes it as the table invariant, so an insert or update that would break it fails and changes nothing.
- The constraint error's text. It is taken to be "duplicate key value violates unique constraint".
- The validator's error text. It is the issue messages joined by newlines, not zod's JSON rendering.
- Transport between browser and server. A server-side `Error` is taken to reach the client with the same message.
- Where a fault strikes. A database or transport error is modelled at the write itself, after authentication and validation. So in the model a missing session or an invalid input is reported even when the network is down.
- `Records.RecordStore.CreateRecord`, `Records.RecordStore.UpdateRecord`, `Records.RecordStore.DeleteRecord`, `RecordForm.Submit`, `EditRecordDialog.Submit`, `RecordsTable.TableState.HandleDeleteConfirm` and `RecordsTable.TableState.SubmitEdit` model a fault only before the write takes effect. In the source the client shows the error toast whenever the awaited call rejects (src/components/record-form.tsx:134-147, src/components/edit-record-dialog.tsx:85-102, src/components/records-table.tsx:81-86). That includes a response lost after the server function has committed its write. Then the row is stored, updated or deleted, but the user sees the failure toast, and a retried save meets the duplicate-date message. The model has no outcome that pairs a failure toast with a changed table.
- Read failures. `GetRecords` does not fail except for a missing session. A thrown read is the route loader's concern, and the route is not part of this model.
- Toasts are returned as strings. Router navigation after saving, `router.invalidate()` and the JSX markup are not modelled, apart from the structure `Render` returns.
- Asynchrony. Each handler runs to completion. `isDeleting` is true only while the delete is awaited, so the disabled Cancel and Delete buttons are never observed. Interleavings across browser tabs are not modelled either.
- Modal dialogs. The browser does not let the table be clicked while a dialog is open. The model does not impose this, so handler sequences that the UI rules out (both dialogs open at once) are allowed.
- Inline field errors (`isTouched`, `isValid`) and the date picker's `onSelect` are not modelled.
- The route components, the header and the page-level authentication guard are not part of this model.
