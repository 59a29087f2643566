# Clinic booking engine, modelled in Dafny

This project models the booking core of a small clinic's web site. The core has three parts:

- The public API (`src/routes/api.js`). It answers "which start times are free on this date for this service" and accepts a booking for one of them.
- The back-office handlers whose writes feed those answers (`src/routes/admin.js`):
  - status and notes updates, and deletion of appointments;
  - insertion and deletion of blocked times;
  - insertion of services and of international-travel windows;
  - the paginated appointment listing and the dashboard counts.
- The pure helpers of the booking page (`js/app.js`): the phone mask, month navigation, the two date renderings, the calendar's travel-window lookup and the booking wizard's step guards.

The datastore is a value of type `Store.Db`. Each table is a sequence of rows kept in ascending id order, so a query's `.get()` is "the first matching row" (`JsText.FirstWhere`), and every insert takes the table's next AUTOINCREMENT id and appends. Each handler is a pure function from the datastore and the request to the reply and the new datastore. The handlers run synchronously, so each request is one atomic step.

Obstruction is **equality of `HH:MM` text**, as the code does it. It is not overlap of intervals.

- A slot is withdrawn only when a non-cancelled appointment, or a point block on that date, names exactly that label. A 90-minute appointment at 10:00 leaves 10:30 on offer, and `Availability.LabelMatchNotOverlap` proves this for a concrete day.
- The booking check also compares only the exact `(date, time)` pair.

The travel window attached to a reply is the first active window covering the date in id order, because the query has no `ORDER BY`.

Modules (one file each):

| module | file | what it holds |
|---|---|---|
| `JsText` | js_text.dfy | JavaScript and SQLite building blocks: truthiness, `x \|\| null`, `.get()` / `.all()` over a table, `Number()` on digit strings, `toString`, `padStart(2, '0')`, `split`, text order |
| `Clock` | clock.dfy | `HH:MM` labels and their parse into minutes after midnight |
| `Calendar` | calendar.dfy | ISO date parse and the proleptic Gregorian weekday, Sunday = 0 |
| `Store` | store.dfy | the rows, the datastore, the id-order invariant, the lookups and the no-double-booking invariant |
| `Availability` | availability.dfy | `GET /available-slots` |
| `Booking` | booking.dfy | `POST /appointments` |
| `Admin` | admin.dfy | appointment PATCH/DELETE, blocked-time POST/DELETE, service POST, international-date POST, stats |
| `Listing` | listing.dfy | the admin `GET /appointments` listing with its order and pagination |
| `Client` | client.dfy | the booking page helpers |

Conventions:

- A request field that is `undefined` or `null` is `None`; an empty string is `Some("")`, and `Filled` is JavaScript truthiness on it.
- Flags that go through `x ? 1 : 0` (`all_day`, `active`) are a `JsText.JsValue` read with `Truthy`.
- Id parameters from the path or the body are the text the client sent. They match an INTEGER id when they are a non-empty run of decimal digits whose value is the id (`Store.KeyMatches`). SQLite's comparison accepts more than this (see "## Left out").
- The date of "today" in the stats is a parameter, not the wall clock.

## Model

| member | source | states |
|---|---|---|
| JsText.FirstWhere | src/routes/api.js:24 | `.get()`: None exactly when no row matches; otherwise the first matching row, with no earlier row matching |
| JsText.Where | src/routes/api.js:63 | `.filter` / `.all()` with a WHERE: every kept element satisfies the predicate and comes from the input; every satisfying element is kept; order is preserved (a subsequence) |
| JsText.WhereAppend | src/routes/api.js:63 | filtering a table with one more row appends that row exactly when it satisfies the predicate |
| JsText.OrNull | src/routes/api.js:129 | `x \|\| null`: the value survives exactly when it is truthy, and is then unchanged |
| JsText.CountWhere | src/routes/admin.js:83-85 | `COUNT(*)` counts one per accepted row: never more than the table, 0 exactly when no row is accepted, the table's size exactly when every row is |
| JsText.CountIsWhere | src/routes/admin.js:83-85 | the count equals the number of rows the same WHERE selects, for every table and predicate |
| JsText.Collect | src/routes/admin.js:67 | keeping the rows an inner join matches never yields more rows than went in |
| JsText.CollectSound | src/routes/admin.js:67 | every joined row comes from some input row |
| JsText.CollectComplete | src/routes/admin.js:67 | every input row that matches appears joined |
| JsText.ToNumber | src/routes/api.js:36 | `Number(s)` is a number exactly for digit strings |
| JsText.Decimal | src/routes/api.js:42-43 | `toString()` of a natural is a non-empty digit string whose value is that natural, and one digit below 10 |
| JsText.DecimalTwoDigits | src/routes/api.js:42-43 | 10..99 print as their tens digit then their units digit |
| JsText.PadTwo | src/routes/api.js:42-43 | `padStart(2, '0')`: length at least 2, and the original text is the suffix |
| JsText.PadTwoValue | src/routes/api.js:42-43 | a padded number still reads back as the same number |
| JsText.PadTwoShape | src/routes/api.js:42-43 | a padded number below 100 is exactly its two digits |
| JsText.LeadingZero | src/routes/api.js:42-43 | a leading `0` changes neither digit-ness nor value |
| JsText.Split | src/routes/api.js:36 | `split(sep)` gives at least one piece, and no piece contains the separator |
| JsText.JoinSplit | src/routes/api.js:36 | joining the pieces with the separator gives the original text back |
| JsText.SplitNoSeparator | src/routes/api.js:36 | text without the separator splits into itself alone |
| JsText.SplitCons | src/routes/api.js:36 | a separator-free head splits off as the first piece |
| JsText.LexLeReflexive | src/routes/api.js:67 | SQLite/JavaScript text order: every text is `<=` itself |
| JsText.LexLeTotal | src/routes/api.js:67 | any two texts are ordered one way or the other |
| JsText.LexLeAntisymmetric | src/routes/api.js:67 | texts ordered both ways are equal |
| JsText.LexLeTransitive | src/routes/api.js:67 | text order is transitive |
| JsText.WherePairwise | src/routes/admin.js:120 | a relation holding between every earlier and later row still holds after filtering |
| JsText.WhereCongruent | src/routes/api.js:63 | two predicates that agree on every element filter identically |
| JsText.WhereMonotone | src/routes/admin.js:302-308 | a stricter predicate never selects more rows |
| Clock.FormatTime | src/routes/api.js:42-44 | a start renders as at least five characters with the colon third from the end |
| Clock.Label | src/routes/api.js:42-44 | the same shape for an hour and a minute below 60 |
| Clock.JoinLabel | src/routes/api.js:44 | the template `${hours}:${mins}`: the hours text, a colon at its end, then the two minute characters |
| Clock.ParseTime | src/routes/api.js:36-39 | `split(':').map(Number)` then `h * 60 + min`: a text with no colon has no minute piece and gives NaN (None); a number only when there are at least two pieces. `ParseFormat` is its round-trip partner |
| Clock.ParseDigitPair | src/routes/api.js:36-39 | `h:m` with digit-only parts parses to `h*60+m` minutes |
| Clock.ParseFormat | src/routes/api.js:36-44 | round trip: parsing the label of any start gives back that start |
| Clock.ParseFormatAll | src/routes/api.js:36-44 | a list of labels rendered from starts reads back, element by element, as those starts |
| Clock.ParseLabel | src/routes/api.js:36-44 | parsing the label of an hour and minute gives `h*60+min` |
| Clock.FormatInjective | src/routes/api.js:42-44 | distinct starts get distinct labels, so matching on labels matches on minutes |
| Clock.FormatShape | src/routes/api.js:42-44 | below 100 hours a label is exactly `HH:MM`: two hour digits, colon, two minute digits |
| Clock.LabelShape | src/routes/api.js:42-44 | the same for an explicit hour below 100 and minute below 60 |
| Clock.ParseShapedLabel | src/routes/api.js:36-39 | a five-character `HH:MM` text of digits parses to its minutes |
| Calendar.ParseIsoDate | src/routes/api.js:21 | an accepted date text is `YYYY-MM-DD` in digits, with month 1..12 and day 1..31, and its fields are the digit values |
| Calendar.Weekday | src/routes/api.js:21 | `getDay()` is in 0..6 |
| Calendar.NextDate | src/routes/api.js:21 | the following day of a valid date is a valid date |
| Calendar.DayNumberNext | src/routes/api.js:21 | the day count of the following day is one more |
| Calendar.YearStep | src/routes/api.js:21 | the days before a year grow by that year's length (365, or 366 in a leap year) |
| Calendar.LeapDays | src/routes/api.js:21 | a year's extra day counts every fourth year, less every hundredth, plus every four-hundredth |
| Calendar.WeekdayNext | src/routes/api.js:21 | the following day's weekday is the next weekday, Saturday wrapping to Sunday |
| Calendar.WeekdayRollover | src/routes/api.js:21 | a day number past the end of the month falls on the same weekday as the date it rolls over to |
| Calendar.KnownWeekdays | src/routes/api.js:21 | anchors: 1970-01-01 was a Thursday (4), 2026-05-04 a Monday (1), 2026-10-10 a Saturday (6) |
| Calendar.DaysInMonth | src/routes/api.js:21 | every month has 28 to 31 days |
| Store.AppendKeepsOrder | src/routes/api.js:126-129 | appending a row with the next id keeps a table in strictly ascending id order below the next id |
| Store.FilterKeepsOrder | src/routes/admin.js:120 | deleting rows keeps the table in id order |
| Store.SameIdsKeepOrder | src/routes/admin.js:101-104 | rewriting rows in place without changing their ids keeps the table in id order |
| Store.FindService | src/routes/api.js:30 | `SELECT … FROM services WHERE id = ?`: None exactly when the key names no service; otherwise the first service in id order that the key names |
| Store.HoursFor | src/routes/api.js:24 | None exactly when no active working-hours row has that weekday; otherwise the first active row in id order for that weekday |
| Store.ActiveWindowFor | src/routes/api.js:66-68 | the international window: None exactly when no active window covers the date (inclusive, text order); otherwise the first that does |
| Availability.ServiceDuration | src/routes/api.js:28-32 | duration 60 with no `service_id` or with an unknown one; otherwise the service's duration |
| Availability.Starts | src/routes/api.js:38-41 | the i-th start is `start + 30*i`; each leaves room for the service before the end; the next one would not |
| Availability.StartsComplete | src/routes/api.js:41 | every minute on the 30-minute grid from the start that leaves room for the service is generated |
| Availability.StartsEmpty | src/routes/api.js:41 | there are no starts exactly when the service is longer than the opening hours |
| Availability.StartsLength | src/routes/api.js:41 | the number of starts is the first grid index whose start leaves no room |
| Availability.SlotLabels | src/routes/api.js:41-45 | one label per start, in order, each the start rendered as `HH:MM` |
| Availability.GenerateSlots | src/routes/api.js:35-45 | the loop pushes exactly those labels, in that order |
| Availability.LabelsReadBack | src/routes/api.js:36-45 | the i-th label parses back to the i-th grid start, and the service fits before the end there |
| Availability.LabelsRendered | src/routes/api.js:41-44 | the i-th generated label is `FormatTime(start + 30i)` |
| Availability.RenderedFromStarts | src/routes/api.js:41-44 | labels rendered from the loop's starts `start + 30i` are the rendered grid |
| Availability.StartsOnGrid | src/routes/api.js:41-45 | labels that read back as the loop's starts `start + 30i`, each leaving room for the service, lie on the grid |
| Availability.DaySlots | src/routes/api.js:36-45 | an unreadable start or end time gives no slots; otherwise every label reads back as the i-th 30-minute grid start and leaves room for the service before the end, and the next grid start after the last label would not fit, so every fitting start is listed; label i is the start `start + 30i` rendered as `HH:MM` (`FormatTime`), so the text is fixed, not just its parse |
| Availability.OpeningHours | src/routes/api.js:21-25 | None exactly when the date does not parse or no active row has its weekday; otherwise the first active row in id order for that weekday |
| Availability.BookedTimes | src/routes/api.js:48-51 | a time is in the list exactly when a non-cancelled appointment on the date starts at it |
| Availability.BookedAtAppend | src/routes/api.js:48-51 | one more appointment books exactly its own start, and only when it is not cancelled |
| Availability.BlockTimes | src/routes/api.js:54-56 | a time is in the list exactly when a block on the date names it; a null `block_time` names none |
| Availability.Unobstructed | src/routes/api.js:63 | kept labels are candidates named by neither list; every such candidate is kept; the order is preserved |
| Availability.UnobstructedAreFree | src/routes/api.js:48-63 | filtering by the two lists keeps exactly the candidates no held appointment and no point block names |
| Availability.AvailableSlots | src/routes/api.js:16-78 | 400 exactly without a date; no slots exactly when the weekday has no active hours; blocked exactly when an all-day block exists. Otherwise the slots are the candidates in order, minus exactly the obstructed ones, with the covering active window attached |
| Availability.SlotsAreFreeLabels | src/routes/api.js:63 | the offered slots equal the candidates filtered by "free on that date" |
| Availability.SameObstructionsSameReply | src/routes/api.js:48-63 | the reply depends on appointments and blocks only through which labels are free and whether the day is blocked |
| Availability.CancelledAppointmentIgnored | src/routes/api.js:48-51 | adding a cancelled appointment changes no reply |
| Availability.TimelessBlockIgnored | src/routes/api.js:54-63 | adding a block with neither a time nor the all-day flag changes no reply |
| Availability.OfferedAndWithdrawn | src/routes/api.js:41-63 | on an open, unblocked day, a free candidate is offered and a booked one is not |
| Availability.LabelMatchNotOverlap | src/routes/api.js:51-63 | concrete: a 90-minute service on 2026-05-04, 09:00-12:00, with an appointment at 10:00, still offers 10:30 and withholds 10:00 |
| Booking.ExistingAt | src/routes/api.js:102-104 | a row is found exactly when a non-cancelled appointment holds the date and time |
| Booking.BlockingAt | src/routes/api.js:111-113 | a row is found exactly when the date has an all-day block or a block at that time |
| Booking.LocationFor | src/routes/api.js:120-124 | the covering active window's country code, `BR` when there is none |
| Booking.NewAppointment | src/routes/api.js:126-129 | the inserted row: next id, `confirmed`, the request's fields, empty e-mail and notes as null, the location code |
| Booking.Book | src/routes/api.js:93-152 | 400 exactly when a required field is missing; 409 taken exactly when the start is held; 409 blocked exactly when not held but blocked. A refusal leaves the store unchanged. 500 exactly when the request passes those checks but its `service_id` names no service: the insert breaks the foreign key (src/database.js:53) and throws. Any refusal leaves the store unchanged. Success appends exactly the new row, advances only the id, and replies with its fields and the name of the existing service |
| Booking.BookKeepsNoDoubleBooking | src/routes/api.js:102-129 | a booking never makes two non-cancelled appointments share a date and start |
| Booking.BookKeepsWellFormed | src/routes/api.js:126-129 | a booking keeps every table in id order |
| Booking.BookAllKeepsInvariants | src/routes/api.js:102-129 | after any sequence of booking requests, the tables are in id order and no start is held twice |
| Booking.OfferedSlotIsFree | src/routes/api.js:58-63 | an offered start is free and its day has no all-day block |
| Booking.FreeSlotIsBookable | src/routes/api.js:97-129 | a complete request for an existing service at a free start on an unblocked day is accepted |
| Booking.OfferedSlotIsBookable | src/routes/api.js:102-117 | a start the slots endpoint offers is accepted by the booking endpoint when the request names an existing service |
| Booking.UnknownServiceRefused | src/routes/api.js:126-151 | an offered start booked with a `service_id` that names no service is refused with 500, and the store is unchanged |
| Booking.BookedSlotWithdrawn | src/routes/api.js:48-63 | after a booking the start is no longer free or offered on that date; every other start keeps its status |
| Admin.Joined | src/routes/admin.js:107-109 | the JOIN gives a view exactly when the service exists, carrying the row and the service name |
| Admin.UpdateWhere | src/routes/admin.js:101 | `UPDATE ... WHERE id = ?`: the matching rows are rewritten, all others are unchanged, and the count stays |
| Admin.PatchAppointment | src/routes/admin.js:95-115 | a truthy status replaces only the status, and a defined `notes` (null included) only the notes, of the row with that id; other rows and tables are unchanged. The reply is `JoinedRow` of the updated table |
| Admin.PatchedRows | src/routes/admin.js:100-105 | the two UPDATEs: rows the key names get the truthy status and the defined notes, every other row is unchanged, and the count stays |
| Admin.JoinedRow | src/routes/admin.js:107-109 | the reply: None exactly when no row the key names has a service; otherwise a row the key names, joined with its service's name, with no earlier row both named and joinable |
| Admin.PatchKeepsWellFormed | src/routes/admin.js:100-105 | a PATCH keeps every table in id order |
| Admin.PatchedRowHoldsLess | src/routes/admin.js:100-105 | a PATCH that cancels or sets no status makes no row hold a start it did not hold |
| Admin.PatchWithoutReinstatingKeepsNoDoubleBooking | src/routes/admin.js:100-105 | such a PATCH keeps the no-double-booking invariant |
| Admin.CancelFreesSlot | src/routes/admin.js:100-102 | cancelling the row that holds a start frees that start |
| Admin.ReinstatingCanDoubleBook | src/routes/admin.js:100-102 | concrete: setting a cancelled row back to `confirmed` is not checked, and can leave two rows holding one start |
| Admin.DeleteAppointment | src/routes/admin.js:120 | removes exactly the rows with that id: the survivors are the other rows in order; other tables are unchanged |
| Admin.DeleteBlock | src/routes/admin.js:154 | removes exactly the blocked-time rows with that id, in the same way |
| Admin.DeleteAppointmentKeepsInvariants | src/routes/admin.js:120 | deletion keeps id order and no double booking |
| Admin.DeleteBlockKeepsWellFormed | src/routes/admin.js:154 | deletion keeps id order |
| Admin.DeletionsOnlyFree | src/routes/admin.js:118-158 | a deletion never takes a free start away, and never creates an all-day block |
| Admin.FewerAppointmentsBookLess | src/routes/admin.js:120 | rows drawn from a table hold no start the table does not |
| Admin.FewerBlocksBlockLess | src/routes/admin.js:154 | blocks drawn from a table block no start or day the table does not |
| Admin.AddBlock | src/routes/admin.js:139-146 | 400 exactly without a date, leaving the store unchanged; otherwise one row appended with the next id: the date, the time or null, `all_day` by truthiness, the reason or null |
| Admin.AddBlockKeepsWellFormed | src/routes/admin.js:142-144 | the insert keeps id order |
| Admin.AddBlockWithdraws | src/routes/admin.js:142-144 | a block with a time makes that start unfree; an all-day block leaves the day without slots |
| Admin.MaxSortOrder | src/routes/admin.js:247 | `MAX(sort_order)`: NULL exactly for no services; otherwise an upper bound that some service attains |
| Admin.NextSortOrder | src/routes/admin.js:247-248 | 1 for no services; otherwise one more than the largest sort order, so above every existing one |
| Admin.AddService | src/routes/admin.js:244-254 | 400 exactly without a name, leaving the store unchanged; otherwise one active row appended with the next id, the description or null, the duration or 60 when falsy, and sort order `MAX(sort_order) + 1`: above all others and one more than some existing order, or 1 when first |
| Admin.AddServiceKeepsWellFormed | src/routes/admin.js:250-252 | the insert keeps id order |
| Admin.NewServiceIsFound | src/routes/admin.js:250-252 | the slots endpoint finds the new service by its id's decimal text and uses its duration |
| Admin.AddWindow | src/routes/admin.js:173-182 | 400 exactly without a code, start or end date. The NOT NULL columns fail exactly when the country name or flag is missing. Either refusal leaves the store unchanged. Otherwise one row appended with the next id, and `active` is true when omitted and truthiness otherwise |
| Admin.AddWindowKeepsWellFormed | src/routes/admin.js:178-180 | the insert keeps id order |
| Admin.NewWindowLocates | src/routes/admin.js:178-180 | later bookings are located in the new window exactly on the dates it covers that no older active window covers |
| Admin.GetStats | src/routes/admin.js:302-312 | today's count is the non-cancelled appointments dated today; the total is all non-cancelled ones; upcoming is the confirmed ones dated today or later; today <= total <= rows |
| Admin.BookingCounted | src/routes/admin.js:302-312 | a new confirmed appointment adds one to the total, one to today's count if dated today, and one to upcoming if not before today |
| Listing.JoinAll | src/routes/admin.js:67 | the inner join never adds rows, and drops none when every row's service exists |
| Listing.JoinAllSound | src/routes/admin.js:67 | every listed view is a selected row joined with its service |
| Listing.JoinAllComplete | src/routes/admin.js:67 | every selected row whose service exists is listed |
| Listing.ListedBeforeTotal | src/routes/admin.js:75 | `ORDER BY date DESC, time ASC` compares any two rows |
| Listing.ListedBeforeTransitive | src/routes/admin.js:75 | that order is transitive |
| Listing.Insert | src/routes/admin.js:75 | inserting into a listing adds exactly that row, one more in length |
| Listing.InsertKeepsOrder | src/routes/admin.js:75 | inserting into an ordered listing keeps it ordered |
| Listing.TailInOrder | src/routes/admin.js:75 | the rest of an ordered listing is ordered |
| Listing.PrependKeepsOrder | src/routes/admin.js:75 | a row that goes before the head keeps the listing ordered |
| Listing.SortListing | src/routes/admin.js:75 | sorting is a permutation of the rows |
| Listing.SortListingOrdered | src/routes/admin.js:75 | the sorted rows are in listing order |
| Listing.Offset | src/routes/admin.js:77 | `(page - 1) * limit`: page 1 starts at row 0, and no page from 1 on has a negative offset under a non-negative limit |
| Listing.PageOf | src/routes/admin.js:78 | `LIMIT ... OFFSET ...`: a contiguous run starting at the offset (0 when negative). It has the limit's length, less when the rows run out, and runs to the end under a negative limit |
| Listing.PageElement | src/routes/admin.js:78 | the i-th row of a page is the row i places after the (clamped) offset |
| Listing.PageRowsSatisfy | src/routes/admin.js:78 | whatever every row of the table satisfies, every row of a page satisfies |
| Listing.PagesStep | src/routes/admin.js:77-78 | page n continues pages 1 to n - 1 exactly |
| Listing.TileStep | src/routes/admin.js:77-78 | a page continues exactly where the rows before its offset stop |
| Listing.PagesTile | src/routes/admin.js:77-78 | with offset `(page-1)*limit`, pages 1 to n laid end to end are exactly the first `n*limit` rows |
| Listing.ListingCoversSelection | src/routes/admin.js:71-80 | enough pages together hold every selected, joinable row exactly once |
| Listing.SortedRowSelected | src/routes/admin.js:71-80 | every sorted row passes the date and status filters, comes from the table and is its join |
| Listing.PageRowsSelected | src/routes/admin.js:71-80 | the same for every row of any page |
| Listing.PageKeepsOrder | src/routes/admin.js:75-78 | a page of an ordered listing is ordered |
| Listing.Sorted | src/routes/admin.js:67-75 | the whole selection, joined and put in listing order: a permutation of the joined rows, in `date DESC, time ASC` order |
| Listing.SortedPageInOrder | src/routes/admin.js:75-78 | any page of the sorted selection is in listing order |
| Listing.ListAppointments | src/routes/admin.js:64-92 | page defaults to 1 and limit to 50. The rows are the requested page of the filtered, joined, sorted selection, in listing order, each a filtered table row with its service name, at most `limit` of them. `total` counts the filtered rows without the join |
| Client.KeepDigits | js/app.js:609 | `replace(/\D/g, '')` leaves only digits and never lengthens |
| Client.KeepDigitsOne | js/app.js:609 | one character is kept exactly when it is a digit |
| Client.KeepDigitsConcat | js/app.js:609 | the digits of a concatenation are the digits of each part in turn |
| Client.KeepDigitsOfDigits | js/app.js:609 | a digit string is left as it is |
| Client.PhoneMask | js/app.js:609-619 | more than 11 digits: the bare digits. 7-11: `(AA) NNNNN-NNNN...`. 3-6: `(AA) N...`. 1-2: `(A`. None: empty |
| Client.PunctuationHasNoDigits | js/app.js:612-616 | the mask's punctuation holds no digit |
| Client.OpenMaskDigits | js/app.js:616 | `(` + digits has just those digits |
| Client.AreaMaskDigits | js/app.js:614 | `(AA) N...` has just the digits it was built from |
| Client.FullMaskDigits | js/app.js:612 | `(AA) NNNNN-N...` has just the digits it was built from |
| Client.PhoneMaskKeepsDigits | js/app.js:609-619 | the mask keeps the typed digit sequence |
| Client.PhoneMaskIdempotent | js/app.js:609-619 | masking a masked value changes nothing |
| Client.ChangeMonth | js/app.js:360-370 | selection cleared; for a step of -1 or +1, the month stays in 0..11 and `year*12+month` moves by exactly the step |
| Client.ChangeMonthInverse | js/app.js:360-368 | forward then back, and back then forward, return to the same month and year |
| Client.IsoSplit | js/app.js:641 | a `YYYY-MM-DD` text splits on `-` into its three fields |
| Client.FormatDateBR | js/app.js:640-643 | `YYYY-MM-DD` becomes `DD/MM/YYYY` |
| Client.DecimalLength | js/app.js:646-648 | `toString()` of 1-, 2-, 3- and 4-digit numbers has that many characters |
| Client.IsoFromPieces | js/app.js:649 | four, two and two digits joined with `-` form an ISO-shaped date |
| Client.IsoParsesBack | js/app.js:649 | such a date, with month 1..12 and day 1..31, parses back to its fields |
| Client.DigitsBound | js/app.js:646 | four digits are at most 9999 |
| Client.PiecesToBR | js/app.js:640-643 | four, two and two digits joined with `-` display as day, month and year joined with `/` |
| Client.FormatDateISO | js/app.js:645-650 | with a four-digit year, the result is ISO-shaped and parses back to the year, the month index plus one, and the day |
| Client.IsoThenBR | js/app.js:640-650 | the two renderings compose: the ISO text of a date shown in Brazilian form is `DD/MM/YYYY` of its padded fields |
| Client.CalendarWindow | js/app.js:342 | the flag comes from the first window in list order whose inclusive range holds the date, with none when no window does |
| Client.CalendarAgreesWithServer | js/app.js:342 | for the same list of windows in the same order, all active, the calendar's `find` picks the window the server attaches |
| Client.MarkSteps | js/app.js:445-450 | exactly the target step is active and exactly the lower steps are completed, with numbers kept |
| Client.NextStep | js/app.js:421-450 | refuses exactly step 2 with no service chosen, and step 3 without both a date and a time. Otherwise it shows the target panel, marks the steps and records the service on step 2 |
| Client.NextStepMarksOneStep | js/app.js:445-450 | with distinct step numbers at most one step is active, and reaching step 3 implies a date and a time are selected |
| Client.NextStepIdempotent | js/app.js:421-450 | going to the same step twice is the same as going once |

## Left out

- Page rendering, DOM updates, `fetch`, toasts, observers, scroll handlers and timers in js/app.js: user interface and I/O, with no logic the replies depend on.
- The hero canvas animation: floating point and `Math.random`.
- Admin authentication, sessions, login, password change and SHA-256 hashing: foreign cryptography, the clock and random identifiers.
- CSV export and the map settings: output formatting, and floating-point coordinates in JSON.
- Contact messages and the stats' unread-message count: plain storage with no logic.
- src/database.js is not part of this model beyond the column defaults it fixes (`status 'confirmed'`, `location_country 'BR'`, `duration 60`). src/server.js and scripts/set-service-icons.js are not part of this model: they are wiring and a one-off script.
- The international-dates PATCH and DELETE, the services PATCH, and the admin GET listings of blocked times, international dates and services: they do not touch the booking core's decisions beyond what the modelled inserts show.
- The public services and international-dates listings: read-only queries with no logic.
- The SQL engine itself: `.get()` is the first matching row in id order, `.all()` keeps id order, and each handler is one atomic step. better-sqlite3 is synchronous, so there is no concurrency to model.
- Thrown exceptions and the 500 replies they produce, apart from the two a request can provoke: the NOT NULL failure of `Admin.AddWindow` and the services foreign key of `Booking.Book`. The foreign key holds because the SQLite binding enforces foreign keys by default; the model relies on that.
- Non-string JSON values in text fields. A number or an object where the code expects text is not modelled: request fields are text or absent.
- `Number()` on text with signs, spaces, decimals or exponents, and the NaN that non-numeric `page` or `limit` produce. Digit strings are modelled (`""` as 0); other text in a working-hours time is NaN, which ends the slot loop at once. `page` and `limit` are integers or absent.
- JavaScript's `Date` for inputs other than `YYYY-MM-DD` with month 1..12 and day 1..31. Such dates find no working hours in the model.
- UTF-16 code units versus code points: strings are sequences of characters.
- Client.FormatDateISO: the contract is stated for four-digit years only; other years are modelled but not described.
- Client.FormatDateBR: the contract is stated for `YYYY-MM-DD` input only. Other input is modelled, with a missing piece rendering as `undefined`, but no property is stated for it.
- Client.ChangeMonth: the month-step property is stated for the -1 and +1 the arrows pass. Other steps are modelled as written: a wrap sets the month to 0 or 11 rather than reducing it.
- Listing.SortListing: the relative order of rows with the same date and time is not stated. SQLite does not fix it either.
- Client.CalendarAgreesWithServer: agreement is proved only when the calendar's list is the server's table of windows, in id order. The page actually gets `/international-dates` (src/routes/api.js:84), which keeps only windows not yet ended and orders them by `start_date`, or the built-in fallback list (js/app.js:218-233). With overlapping windows the two lookups can then pick different windows, and the model states nothing for that case.
- Non-canonical numeric ids. SQLite also matches text such as `'4.0'`, `'+4'` or `' 4'` against the INTEGER id 4; `Store.KeyMatches` accepts only plain digit runs.
- The NUMERIC affinity of the DATE columns (src/database.js:46, 58, 70-71). Date text that is all digits is stored as a number, so `"0123"` and `"123"` become the same date in the source. The model compares date text exactly, so `Booking.Book` accepts the second of two such bookings at one time, where the source answers 409. Dates in `YYYY-MM-DD` form contain `-` and stay text, so they are unaffected.
- Admin.PatchWithoutReinstatingKeepsNoDoubleBooking: holds only for a PATCH that cancels or sets no status. Another status can reinstate a row onto a start that has been rebooked, as Admin.ReinstatingCanDoubleBook shows.
