# Registration ledger of registration-backend

This project models the registration ledger of a small Flask service. Group
leaders submit attendee rosters for the active meeting. Each accepted
submission is stored with a sequential id, an invoice number and an amount,
and a delayed payment confirmation later marks it as paid. The model also
covers the administrators' summary and export, which are computed over the
stored list.

Modules:

- `Wrappers` defines `Option` and `Result`.
- `Decimal` models Python's `str(n)` and `f"{n:04d}"` for natural numbers. It
  also has the decoding function that inverts them.
- `Registrations` models `routes/registration.py`:
  - the request, attendee, record, invoice and error types;
  - the ordered validation, written as pure functions that return the first
    violation;
  - the invoice-number format, with a parser that recovers the stamp and the
    serial;
  - the pure description of one submission (`Registered`, `Response`) and of
    one confirmation (`Confirmed`);
  - the `Ledger` class. Its `records` field is the list the route appends to.
    Its methods are `Register`, with the validation loops, and `Confirm`, the
    search loop of `update_payment`.
- `Admin` models `routes/admin.py`:
  - the summary totals and the per-station tally, both as the route is
    written and as evidently intended;
  - the export rows, with nested loops.

The clock, the meeting configuration and the request body are parameters. A
`Clock` is one reading of `datetime.now()`, given as an instant plus its
three renderings: the invoice stamp, the invoice date and the ISO timestamp.
A `Meeting` gives the deadline instant (midnight of the configured date) and
the amount per attendee.

The ledger invariant `WellFormed` says three things:

- ids run 1..n in order;
- each invoice number parses back to its record's id;
- every record has a non-empty list of complete attendees.

`Register` and `Confirm` preserve it. From it follow unique ids and unique
invoice numbers.

Behaviours of the code worth noting:

- A successful registration answers with Flask's default status 200.
- The attendee check rejects only a missing or zero age. A negative age is
  accepted (routes/registration.py:47).
- The deadline is parsed as midnight of the configured date, and a request is
  rejected when `now` is strictly later. So a registration made during the
  deadline day itself is rejected (routes/registration.py:31-32).
- `update_payment` sets `paid` and saves again even when the record is
  already paid. The model's `Confirmed` is idempotent in value.
- There is no persistence error path. An exception while saving is not
  handled by the route.

## Model

| member | source | states |
|---|---|---|
| `Registrations.FirstAbsent` | routes/registration.py:36-39 | the result is the first required key, in the fixed order, that the request lacks; it is None exactly when all are present |
| `Registrations.AllPresent` | routes/registration.py:36-39 | the six required keys, checked in order, are all present exactly when every field of the request is present |
| `Registrations.FirstIncomplete` | routes/registration.py:46-48 | the result is the first attendee whose name is missing or empty or whose age is missing or 0; it is None exactly when every attendee passes |
| `Registrations.Validate` | routes/registration.py:35-48 | success exactly when all six keys are present, the attendee list is non-empty and every attendee passes; the form then copies the request verbatim; MissingField(f) exactly when f is the first absent key; NoAttendees exactly when all keys are present and the list is empty; IncompleteAttendee(p) names the 1-based position of the first failing attendee |
| `Registrations.Complete` | routes/registration.py:47 | definition: an attendee passes when its name is present and non-empty and its age is present and non-zero; used by `FirstIncomplete` and `Validate` |
| `Registrations.Message` | routes/registration.py:33-48 | definition: the four error texts, the attendee position written as `str(n)`; properties in `MessageIdentifiesError` |
| `Registrations.MessageIdentifiesError` | routes/registration.py:33-48 | distinct errors have distinct response texts, so the text names the failed check, the missing key and the attendee position |
| `Decimal.Pad4` | routes/registration.py:52 | the four-digit padding is all digits, at least 4 long, ends with the plain numeral and has only zeros before it, and decodes back to the number |
| `Decimal.Pad4Example` | routes/registration.py:52 | serial 1 is padded to "0001", and a five-digit serial is left as it is |
| `Decimal.DigitsInjective` | routes/registration.py:48 | the decimal numeral determines the number |
| `Registrations.InvoiceNumber` | routes/registration.py:52 | definition: `INV-` + stamp + `-` + four-digit serial; properties in `InvoiceNumberRoundTrip` and `InvoiceNumberInjective` |
| `Registrations.ParseInvoiceParts` | routes/registration.py:52 | parsing `INV-<stamp>-<digits>` gives back the stamp and the digits' value: the serial is read after the last dash |
| `Registrations.InvoiceNumberRoundTrip` | routes/registration.py:52 | parsing `INV-<stamp>-<padded serial>` gives back the stamp and the serial, for any stamp, including stamps that contain dashes |
| `Registrations.InvoiceNumberInjective` | routes/registration.py:52 | distinct stamps or distinct ids give distinct invoice numbers |
| `Registrations.Enrol` | routes/registration.py:64-77 | definition: the stored record; its fields are stated in `Registered`, and its agreement with the invoice in `IssueInvoice` |
| `Registrations.IssueInvoice` | routes/registration.py:51-61 | the invoice, built apart from the record, has the record's invoice number and amount, account number equal to the invoice number, attendee count equal to the record's list length, and the current date |
| `Registrations.Registered` | routes/registration.py:30-81 | after the deadline or on a validation error the ledger is unchanged; otherwise exactly one record is appended at the end, earlier records are unchanged, and the new record has id n+1, copies station, district, church, leader name, leader phone and attendees verbatim, has amount rate × attendee count and invoice number INV-stamp-Pad4(n+1), and is unpaid |
| `Registrations.Response` | routes/registration.py:30-92 | a request later than the deadline is answered with the deadline error, whatever its body; the response is an error exactly when the ledger is unchanged, and that error is the first failed check's; on success the registration id, invoice number, account number, amount and attendee count agree with the stored record |
| `Registrations.WellFormedUnique` | routes/registration.py:52-66 | in a well-formed ledger ids are pairwise distinct and invoice numbers are pairwise distinct |
| `Registrations.RegisteredKeepsWellFormed` | routes/registration.py:64-81 | a submission keeps ids 1..n gap-free (becoming 1..n+1), keeps invoice serials equal to ids, and stores only validated attendee lists |
| `Registrations.FirstWithId` | routes/registration.py:102-103 | the result is the first position whose record has the given id, or None when no record has it |
| `Registrations.Confirmed` | routes/registration.py:101-106 | the length is unchanged; every field except `paid` is unchanged in every record; `paid` becomes true on the first record with the id, stays as it was elsewhere and never turns false; with no matching id nothing changes |
| `Registrations.ConfirmedIdempotent` | routes/registration.py:101-106 | confirming twice equals confirming once |
| `Registrations.ConfirmedCommute` | routes/registration.py:94-109 | two confirmations give the same ledger in either order |
| `Registrations.ConfirmedById` | routes/registration.py:101-106 | in a well-formed ledger, confirming id k in 1..n marks exactly record k-1 as paid; any other id changes nothing |
| `Registrations.ConfirmedKeepsWellFormed` | routes/registration.py:101-106 | a confirmation keeps the ledger invariant |
| `Registrations.FirstRegistrationExample` | routes/registration.py:22-92 | two attendees at 1000 each on an empty ledger give id 1, amount 2000, the invoice number for serial 1, an invoice for 2 attendees and an unpaid record; confirming id 1 marks that record as paid |
| `Registrations.Ledger.constructor` | routes/registration.py:8-13 | a ledger with no readable store starts empty and well formed |
| `Registrations.Ledger.Register` | routes/registration.py:22-92 | the response and the new list are those of `Response` and `Registered` on the old list; the ledger invariant is preserved |
| `Registrations.Ledger.Confirm` | routes/registration.py:99-106 | the new list is `Confirmed` of the old one; `found` is true exactly when some record has the id, which is when the list is saved; the ledger invariant is preserved |
| `Admin.AttendeeTotal` | routes/admin.py:66 | definition: the sum of the attendee-list lengths; properties in `ExportRows`, `TotalsUpdate` and `RegisteredTotals` |
| `Admin.AmountTotal` | routes/admin.py:67 | definition: the sum of the amounts; properties in `PaidTotal`, `TotalsUpdate` and `RegisteredTotals` |
| `Admin.PaidTotal` | routes/admin.py:68 | the paid total is 0 when nothing is paid and equals the total amount when everything is paid; with non-negative amounts it lies between 0 and the total amount |
| `Admin.Tally` | routes/admin.py:70-74 | the tally's keys are exactly the stations that occur, and each station's entry is the number of attendees registered there |
| `Admin.SummaryOf` | routes/admin.py:65-82 | definition: the summary with the tally over every registration; properties in `Tally`, `PaidTotal` and `AsWrittenMissesStation` |
| `Admin.SummaryAsWritten` | routes/admin.py:70-82 | as written, an empty ledger yields no response, and otherwise the breakdown holds only the first registration's station and attendee count; the totals equal the corrected summary's |
| `Admin.AsWrittenMissesStation` | routes/admin.py:72-82 | any station other than the first registration's is missing from the as-written breakdown, while the full tally has it |
| `Admin.AsWrittenCounterexample` | routes/admin.py:72-82 | on registrations at stations A and B the as-written breakdown is {A: 1} while the full tally is {A: 1, B: 1}; on an empty ledger there is no response |
| `Admin.GetSummary` | routes/admin.py:59-82 | the tally loop run over every registration gives the corrected summary: count, attendee total, amount total, paid total and full tally |
| `Admin.GetSummaryAsWritten` | routes/admin.py:59-82 | the loop that responds from its first iteration computes exactly the as-written summary |
| `Admin.TotalsUpdate` | routes/admin.py:65-68 | replacing one record changes each total by exactly the difference between the old and the new record |
| `Admin.ConfirmedTotals` | routes/admin.py:65-68 | a confirmation leaves the count, the attendee total and the amount total unchanged; it adds the confirmed record's amount to the paid total when that record was unpaid |
| `Admin.RegisteredTotals` | routes/admin.py:65-68 | a successful registration adds one record, its attendees and rate × attendee count to the totals, and leaves the paid total unchanged |
| `Admin.RowFor` | routes/admin.py:28-40 | definition: the row for one attendee of one registration; its placement is stated in `ExportRowAt` |
| `Admin.ExportRows` | routes/admin.py:25-41 | the number of export rows equals the total number of attendees |
| `Admin.ExportRowAt` | routes/admin.py:25-41 | attendee j of registration i is the row at position (attendees of the earlier registrations) + j, carrying id, invoice number, station, district, church, leader name and phone, amount, paid and timestamp of registration i and that attendee's name and age |
| `Admin.Export` | routes/admin.py:18-41 | the nested loops build exactly the export rows |

## Findings

| source | as written | input that shows it | evidently intended | confidence | as-written member | corrected member |
|---|---|---|---|---|---|---|
| routes/admin.py:76-82 | the `return` is indented inside the `for` loop over registrations | an empty ledger gives no response; registrations at stations "A" and "B" give the breakdown {"A": 1} | respond after the loop, with the breakdown over all registrations | high, not executed | `Admin.GetSummaryAsWritten` | `Admin.GetSummary` |

`Admin.SummaryAsWritten` specifies the as-written view. `Admin.AsWrittenCounterexample`
and `Admin.AsWrittenMissesStation` exhibit the discrepancy. `Admin.SummaryOf`
and `Admin.Tally` specify the corrected view.

## Left out

- Reading and writing `registrations.json` (routes/registration.py:8-19) is file I/O. The ledger is an in-memory list, and a missing or corrupt file is an empty ledger (`Ledger.constructor`). Save failures are not modelled.
- The background thread and `time.sleep` of `simulate_mpesa_payment` are concurrency and time. Only the sequential effect of `update_payment` is modelled. The read-modify-write race between a registration and a confirmation, which can lose a write, is not modelled.
- `datetime.now`, `strptime`, `strftime` and `isoformat` are library calls. The model takes one clock reading as a parameter. The source reads the clock up to four times per request, and those readings may differ slightly.
- `load_meeting_config` does not exist in routes/meeting.py. The meeting configuration is a parameter.
- Amounts are integers. The source multiplies a float rate.
- JSON typing is not modelled. Two cases are affected:
  - An `attendees` key that is present with the value null gets "At least one attendee is required" in the source. The model cannot express it: `None` means the key is absent.
  - Field values of other JSON types, and a body that is not JSON, are not modelled.
- `Admin.RowFor` copies `None` for a missing attendee name or age. The source raises a key error when the key is absent and gives null when the value is null. Records made by `Register` always have both.
- `get_registrations` returns the stored list unchanged. That list is `Ledger.records`.
- The pandas spreadsheet writing, `send_file` and the download file name (routes/admin.py:42-56) are foreign libraries.
- Flask routing, `request.json` and `jsonify` are framework code. Status codes appear only as `Error.Status()`.
- routes/locations.py, routes/meeting.py, routes/admin_auth.py, models.py and app.py are CRUD, authentication and ORM code outside the ledger. They are not part of this model.
