# Conference room booking portal — verified model of the client-side core

This project models, in Dafny, the logic of a browser-side room-booking widget
and its login gate once the page, browser storage and the wall clock are taken
away:

- **Booking arithmetic** (`TimeText`): JavaScript's `String(n)`, `pad`,
  `buildDate`, the reading of `HH:MM` text and `calcEndTime`, which adds whole
  hours to a start time modulo 1440 minutes and formats the result.
- **Slot availability** (`Availability`): `showSlots` builds a list of taken
  minute marks by stepping 60 minutes from each same-date, same-room booking's
  start while below its end, then classifies the nine catalog slots
  (09:00 … 17:00) as taken, past (only on today's date) or selectable, and shows
  a "no free slots" note when none is selectable. `CollectTaken` and `ShowSlots`
  are loop methods; the taken flag is proved against the independent predicates
  `Covers` and `SlotTaken`, and the past flag follows the source's own rule
  `IsPast`, whose meaning in minutes of the day is stated by `PastIff`.
- **Records and validation** (`Records`): the booking and contact records, the
  booking submit guard exactly as written (required fields are checked only when
  the description is empty), the creator stamp (`anonymous` without a session),
  the blank-admin-to-null rule, and the admin usernames offered in the form.
- **Write paths** (`Storage`): the bookings and contacts tables as sequences in a
  `LocalStore` object; submit appends or leaves the table unchanged, clear-all
  empties it.
- **Session gate** (`Auth`): the static three-user catalog, the exact
  three-field credential match, the landing page per role, the session entry
  (absent, a user, or unparseable), `getCurrentUser`, `checkAuth` and `logout`.

Inputs the source takes from the browser are parameters: whether the chosen
date is today and the current hour and minute (`ShowSlots`), the creation
timestamp (`SubmitBooking`, `SubmitContact`), the session user (`SubmitBooking`),
the user's answer to the clear-all confirmation (`ClearBookings`), and whether
the user catalog is defined in the page (`AdminUsernames`).

Three behaviours of the code are modelled as written:

- Reading the bookings table (script.js:18) has no error handling, so corrupt
  stored text is not modelled as reading back empty; the table is a sequence of
  records.
- The stored end time (script.js:243) is the form's end-time field as it stands
  at submit; it is not recomputed from start time and duration.
- Required booking fields (script.js:250-255) are enforced only when the
  description is empty (`Records.BookingRejected`,
  `Storage.DescriptionBypassesGuard`).

## Model

| member | source | states |
|---|---|---|
| TimeText.Digits | script.js:5 | the decimal text of a natural number is at least one digit, digits only, and starts with '0' only for 0 |
| TimeText.DecimalString | script.js:5 | `String(n)` for n ≥ 0 is digits reading back as n, with no leading zero except for 0 itself; for n < 0 a minus sign followed by digits reading back as −n |
| TimeText.Pad | script.js:5 | `pad(n)` is `String(n)` preceded by zeros up to length 2, and by nothing when it is already that long |
| TimeText.DigitsRoundTrip | script.js:5 | the decimal text of a natural number reads back as that number |
| TimeText.PadTwoDigits | script.js:5 | `pad(n)` for 0 ≤ n ≤ 99 is exactly two digits whose value is n |
| TimeText.PadTwoDigitsInverse | script.js:5 | every two-digit field is what `pad` writes for its value (leading zero included) |
| TimeText.ParseTime | script.js:10 | a time that reads has hour and minute in 0..99 |
| TimeText.FormatThenParse | script.js:14 | formatting an hour and minute in 0..99 as `HH:MM` and reading it back gives the same pair |
| TimeText.ParseThenFormat | script.js:10 | reading well-formed `HH:MM` text and formatting it again gives the same text |
| TimeText.BuildDate | script.js:6 | for a year ≥ 0, month index 0..98 and day 0..99, `buildDate(y, m, d)` is the year, a dash, the month index plus one as two digits, a dash, the day as two digits, and each field reads back as its value; the year has no leading zero unless it is 0 |
| TimeText.BuildDateExample | script.js:6 | `buildDate(2024, 0, 1)` is "2024-01-01": month index 0 is written "01" |
| TimeText.CalcEndTime | script.js:8-15 | the end time is empty exactly when the start is empty or the duration is 0 |
| TimeText.CalcEndTimeWraps | script.js:11-14 | for a non-negative total the end time reads back with hour in 0..23, minute in 0..59, and its minutes equal start plus duration hours modulo 1440 |
| TimeText.CalcEndTimeKeepsMinute | script.js:11-13 | for a positive whole-hour duration the end minute equals the start minute |
| TimeText.CalcEndTimeMidnightExample | script.js:8-15 | 23:00 plus 2 hours gives "01:00" |
| Auth.Matches | auth.js:25 | an entry passes the `find` test iff it equals the input username, password and role as a whole |
| Auth.Find | auth.js:25 | the match is None iff no catalog entry equals the input on username, password and role; otherwise it is the first entry that does |
| Auth.CatalogRoles | auth.js:4-8 | the catalog has three users, each role is staff, admin or owner, and no two share a role |
| Auth.CatalogUsernamesDistinct | auth.js:4-8 | no two catalog entries share a username |
| Auth.CatalogMatchUnique | auth.js:4-8 | two catalog entries matching the same input are the same entry |
| Auth.LoginSucceedsIff | auth.js:25 | login matches iff the input triple is a catalog entry, and the matched user is that entry |
| Auth.StaffAsAdminRejected | auth.js:5 | staff1 / staff123 with role admin does not match |
| Auth.LandingPage | auth.js:32-34 | staff goes to booking.html, admin and owner to admin.html, any other role nowhere |
| Auth.Decide | auth.js:54-68 | denied (not logged in) iff there is no user; with a user, granted iff no non-empty role is required or the user's role equals it |
| Auth.LoginGrantsItsRole | auth.js:25-34 | the user a login matches passes the check for its role and for no role, fails it for any other role, and lands on its role's page |
| Auth.SessionStore.CurrentUser | auth.js:44-50 | the current user is None iff the stored entry is absent or unparseable, and otherwise the stored user |
| Auth.SessionStore.CheckAuth | auth.js:54-68 | the check fails whenever no user is stored and otherwise follows `Decide`; a denied check sends the page to login.html, a granted one nowhere |
| Auth.SessionStore.Login | auth.js:11-41 | on a match the session holds the matched user and the role's page is returned; on a mismatch the session is unchanged and no page is returned |
| Auth.SessionStore.Logout | auth.js:71-76 | afterwards the entry is absent, the current user is None, every check fails and redirects to login.html, and the page is login.html |
| Records.BookedBy | script.js:245 | the creator is never empty: the session username when it is non-empty, otherwise (no session, or an empty username) "anonymous" |
| Records.MakeBooking | script.js:235-248 | the stored record copies every form field unchanged (end time included), stamps the creation time and the creator (the signed-in user's username, or `Anonymous` when nobody is signed in or the username is empty), and has no admin iff the admin field was blank |
| Records.SomeValueBlank | script.js:250 | an empty description, or a null admin, alone makes some value blank |
| Records.BookingRejected | script.js:250-255 | the guard as written rejects iff the description is empty and one of name, email, room, date, time, duration is empty |
| Records.ContactRejected | script.js:41 | a contact is rejected iff its name, email or message is empty |
| Records.ContactSubjectOptional | script.js:41 | the subject never decides whether a contact is rejected |
| Records.MakeContact | script.js:44 | the stored contact carries the form's name, email, subject and message and the creation time |
| Records.AdminFilter | script.js:85 | every name listed belongs to a catalog user with role admin, every admin's name is listed, and a one-user list gives its username iff that user is an admin |
| Records.AdminFilterAppend | script.js:85 | the names for a concatenation are the names for each part in order, so the list keeps catalog order with one name per admin entry |
| Records.AdminUsernames | script.js:82-92 | the admin list is never empty: the catalog's admins when there are any, otherwise "admin1" alone, also when no catalog is defined |
| Records.CatalogAdmins | script.js:84-92 | with the auth.js catalog the list is exactly "admin1" |
| Availability.Span | script.js:170-171 | a booking has a start and end minute iff both its time and end time read as `HH:MM`; they are the minutes of those parsed clocks, and both are non-negative |
| Availability.SpanReadsBack | script.js:170-171 | a span's start and end minute, formatted back as `HH:MM`, give the booking's own time and end time text |
| Availability.StepsClosedForm | script.js:172 | the k-th mark of the stepping loop is start + 60k, and there are as many marks as whole or part hours fit before the end |
| Availability.StepsMembership | script.js:172 | a mark is produced by the stepping loop iff it is at or after the start, before the end, and a multiple of 60 minutes after the start |
| Availability.TakenMarksAppend | script.js:168-174 | scanning two runs of bookings in turn gives the marks of the first followed by those of the second |
| Availability.CollectTaken | script.js:168-174 | the scan with its inner stepping loop builds exactly the taken marks of the bookings in store order |
| Availability.TakenIff | script.js:168-174 | a minute is taken iff some booking with the same date and room covers it: start ≤ minute < end and minute − start a multiple of 60 |
| Availability.OtherBookingIrrelevant | script.js:169 | inserting a booking for another date or room anywhere in the store leaves the taken marks unchanged |
| Availability.WrappingBookingMarksNothing | script.js:172 | a booking whose end is at or before its start marks no minute |
| Availability.CoverageExamples | script.js:170-172 | 10:00–12:00 takes the 10:00 and 11:00 slots and leaves 09:00 and 12:00 free; 10:00–10:30 still takes 10:00 |
| Availability.IsPast | script.js:186 | no slot is past on a date other than today |
| Availability.PastIff | script.js:186 | no slot is past on another day; on today a slot is past iff it starts at or before the current time of day |
| Availability.SlotCatalog | script.js:177-181 | catalog slot i reads as hour 9 + i, minute 0 |
| Availability.ShowSlots | script.js:160-206 | nine slots in catalog order, each flagged taken iff some same-date, same-room booking covers it and past iff the past rule holds; the "no free slots" note iff no slot is selectable |
| Storage.SubmitStep | script.js:250-258 | a rejected booking leaves the table as it was; an accepted one is appended after the unchanged earlier records |
| Storage.LocalStore.SubmitBooking | script.js:228-263 | the submit is accepted iff the guard passes, the bookings table becomes the submit step of the old table, contacts are unchanged |
| Storage.LocalStore.SubmitContact | script.js:35-48 | accepted iff name, email and message are all non-empty; then the contact with its timestamp is appended, otherwise nothing changes |
| Storage.LocalStore.ClearBookings | script.js:265-270 | after a confirmed clear the bookings table reads empty; without confirmation nothing changes |
| Storage.SubmitAllAppends | script.js:256-258 | submitting N bookings that pass the guard yields the old table followed by exactly those N, in order |
| Storage.SubmitAllKeepsEarlier | script.js:256-258 | any run of submits keeps the earlier records as a prefix and adds at most one record per submit |
| Storage.DescriptionBypassesGuard | script.js:250-255 | a non-empty description appends the booking whatever else is empty; an empty description with a required field missing leaves the table unchanged |

## Left out

- The alert texts shown by `checkAuth` and the login form are not modelled; the denial kind is the `Auth.Verdict` and the redirect target is returned.
- Page construction and event wiring: `generateCalendar`, `populateDropdowns`, `loadBookingsList`, `updateNavForUser`, slot click handlers, `innerHTML`, scrolling and form reset. Alerts are modelled as a rejected result, redirects as a returned page name.
- The slot click and duration-change handlers only fill the end-time field with `calcEndTime` when start and duration are set; they add nothing beyond `TimeText.CalcEndTime`.
- The choice of room in `showSlots` from the room filter or form is page wiring; the room is a parameter.
- Browser storage and JSON serialisation are not modelled: the tables are sequences of records and the session entry is a three-way datatype. Cross-tab last-writer-wins races are not modelled (the code has no handling for them).
- The `Date` object and wall clock: `isToday`, the current hour and minute, and creation timestamps are parameters; calendar day-of-week and month length are presentation.
- `trim` of form fields is not modelled; fields arrive already trimmed.
- `parseInt` leniency: stored times are read strictly as two digits, a colon and two digits; text that `parseInt` would still read partly (such as "9:00") is treated as unparseable and marks nothing.
- `login()`'s early return when its form elements are missing (a console message) and the error element's display are page wiring.
- TimeText.CalcEndTime: requires the start to be empty or well-formed `HH:MM`; the source is only ever called with such text.
- TimeText.CalcEndTimeWraps: stated for a non-negative total only; a negative duration, which the duration select never offers, is computed with JavaScript's truncating remainder in the body but has no stated property.
