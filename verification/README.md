# Team revenue tracker: the daily snapshot model

A Dafny model of the commission dashboard of the team revenue tracker, a React
single-page app. A team lead enters each person's daily figures (`postpaid`, `indTv`,
`zbytek`) against a daily goal and a team goal. The working copy of the table can be saved
as a snapshot keyed by the day's `yyyy-MM-dd` date key (the `full-date` of section 5.6 of
RFC 3339). Choosing a day restores its snapshot or resets the fixed twelve-row roster.
Around that sit pure helpers, each modelled here:

- the per-row derivations: total, clamped progress, and the goal status with bands at 80
  and 100;
- the team card: unguarded fulfilment, the goal edit and the "today" heading;
- the export record: guarded, `Math.round`ed percentages, the rows and the file name;
- the month calendar: stepping, Monday-first blanks, the days of a month and the dots on
  days with a snapshot;
- the announcement list;
- the one-field-at-a-time inline editor;
- the login form.

Money is `real`, so there is no float rounding. Dates are Gregorian `(year, month, day)`
triples. Clock values, ids (`Date.now()`) and JavaScript's `Number()` parsing are
parameters.

Modules:

- `Collections`: `filter`, `find` and `some`, with their laws.
- `Dates`: the calendar, the date key and weekdays.
- `Commission`: the record types and totals.
- `SnapshotStore`: `historicalData`.
- `EditableField`: the inline editor.
- `CommissionRow`: one table row.
- `CommissionTable`: the dashboard session. It holds the roster, the row order, editing,
  loading, saving, autosave and login.
- `PdfExport`, `CalendarView`, `Announcements`, `LoginForm` and `TeamSummary`: one module
  each.

## Model

| member | source | states |
|---|---|---|
| Collections.Filter | team-revenue-tracker-main/src/components/CommissionTable.tsx:43-44 | `filter` keeps only elements satisfying the predicate, keeps every such element, and never grows the list |
| Collections.Find | team-revenue-tracker-main/src/components/CommissionTable.tsx:51 | `find` is `None` exactly when no element matches; otherwise it is a matching element with no match before it |
| Collections.Any | src/components/CalendarView.tsx:26 | `some` holds exactly when some element satisfies the predicate |
| Collections.FilterKeepsAll | team-revenue-tracker-main/src/components/AnnouncementSidebar.tsx:85 | filtering by a predicate every element satisfies returns the list unchanged |
| Collections.FilterKeepsNone | team-revenue-tracker-main/src/components/CommissionTable.tsx:38 | filtering by a predicate no element satisfies returns the empty list |
| Collections.FilterNarrow | team-revenue-tracker-main/src/components/CommissionTable.tsx:82 | filtering by `p` and then by a stronger `q` equals filtering by `q` alone |
| Collections.FilterCommute | team-revenue-tracker-main/src/components/AnnouncementSidebar.tsx:85 | two filters give the same result in either order |
| Collections.FilterConcat | team-revenue-tracker-main/src/components/CommissionTable.tsx:82-83 | filtering a concatenation is the concatenation of the filtered parts |
| Collections.FilterPartition | team-revenue-tracker-main/src/components/CommissionTable.tsx:43-44 | the elements satisfying `p` and those not satisfying it together are the original multiset, and their lengths add up |
| Collections.FilterCounts | team-revenue-tracker-main/src/components/AnnouncementSidebar.tsx:84-86 | a filter keeps every copy of an element that satisfies the predicate and drops every copy of one that does not |
| Collections.PartitionLayout | team-revenue-tracker-main/src/components/CommissionTable.tsx:41-46 | in "matching, then the rest" the first part is exactly the matches and the second exactly the non-matches |
| Collections.FilterIsSubseq | team-revenue-tracker-main/src/components/CommissionTable.tsx:82 | a filter result keeps the relative order of the input (it is a subsequence of it) |
| Dates.DaysInMonth | src/components/CalendarView.tsx:20-22 | month length is 28..31; February has 29 days exactly in Gregorian leap years; April, June, September and November have 30; the other months have 31 |
| Dates.Decimal | src/components/TeamSummary.tsx:33 | the unpadded numeral of `n` is non-empty and all digits; one digit below 10, at most two below 100, at most four below 10000 |
| Dates.Pad | team-revenue-tracker-main/src/components/CommissionTable.tsx:50 | a zero-padded field has at least `width` digits, and exactly `width` when the numeral fits |
| Dates.DateKey | team-revenue-tracker-main/src/components/CommissionTable.tsx:50 | the `yyyy-MM-dd` key has at least ten characters, with dashes before the two-digit month and day, and exactly ten for years 1..9999 |
| Dates.ValueOfDecimal | src/components/TeamSummary.tsx:33 | reading the numeral back gives the number (decode after encode) |
| Dates.ValueOfPad | team-revenue-tracker-main/src/components/CommissionTable.tsx:50 | reading a zero-padded field back gives the number; leading zeros do not change it |
| Dates.EraYear | team-revenue-tracker-main/src/components/CommissionTable.tsx:50 | the year written for `yyyy` is the year itself from year 1 on |
| Dates.KeyIsFullDate | team-revenue-tracker-main/src/components/CommissionTable.tsx:50 | for years 1..9999 the date key is ten characters: four year digits, `-`, two month digits, `-`, two day digits, each decoding to the date's field |
| Dates.KeyInjective | team-revenue-tracker-main/src/components/CommissionTable.tsx:50-51 | from year 1 on, two days have the same key exactly when they are the same day |
| Dates.Weekday | src/components/CalendarView.tsx:72 | `getDay` is in 0..6 |
| Dates.UnixEpochIsThursday | src/components/CalendarView.tsx:72 | the weekday count agrees with ECMA-262's anchor: 1 January 1970 is a Thursday |
| Dates.DaysBeforeNextMonth | src/components/CalendarView.tsx:20-22 | the first of the next month is the month's length after the first of this month |
| Dates.YearLength | src/components/CalendarView.tsx:20-22 | a year has 366 days exactly when it is a Gregorian leap year, and 365 otherwise |
| Commission.TeamTotal | team-revenue-tracker-main/src/components/CommissionTable.tsx:102 | the team total of entries with non-negative contributions is non-negative |
| Commission.EntryTotal | src/components/CommissionTableRow.tsx:21-23 | `getTotalCommission` adds the three amounts: with non-negative amounts the total is at least each of them |
| Commission.ReduceIsTeamTotal | team-revenue-tracker-main/src/components/CommissionTable.tsx:98-102 | the left-to-right `reduce` starting at `acc` is `acc` plus the sum of `postpaid + indTv + zbytek` over the entries |
| Commission.ApplyUpdate | team-revenue-tracker-main/src/components/CommissionTable.tsx:92 | an update writes the named field and the new `lastUpdated`; the id and every other field keep their values |
| Commission.TotalAfterUpdate | team-revenue-tracker-main/src/components/CommissionTable.tsx:92 | setting a contribution moves the entry total by the field's change; renaming or setting the daily goal leaves it unchanged |
| Commission.TotalIndependentOfEditOrder | team-revenue-tracker-main/src/components/CommissionTable.tsx:92 | edits of two different amount fields give the same total in either order |
| Commission.TeamTotalOfZeros | team-revenue-tracker-main/src/components/CommissionTable.tsx:102 | entries with zero totals have a zero team total |
| Commission.TeamTotalConcat | team-revenue-tracker-main/src/components/CommissionTable.tsx:102 | the total of two joined lists is the sum of their totals |
| Commission.TeamTotalPartition | team-revenue-tracker-main/src/components/CommissionTable.tsx:43-44 | splitting the entries by a predicate splits the team total between the two parts |
| SnapshotStore.Lookup | team-revenue-tracker-main/src/components/CommissionTable.tsx:51 | the lookup is `None` exactly when no snapshot has the key; a found snapshot has the key and is in the store |
| SnapshotStore.Upsert | team-revenue-tracker-main/src/components/CommissionTable.tsx:81-84 | after a save the new snapshot is last and no earlier snapshot has its key; unique keys stay unique |
| SnapshotStore.UpsertHoldsOneForKey | team-revenue-tracker-main/src/components/CommissionTable.tsx:73-84 | after a save the store holds exactly one snapshot for the key, the new one, and lookup finds it |
| SnapshotStore.UpsertKeepsOtherKeys | team-revenue-tracker-main/src/components/CommissionTable.tsx:81-83 | for every other key a save keeps the same snapshots, in the same order, and lookup gives the same answer |
| SnapshotStore.UpsertKeepsOrder | team-revenue-tracker-main/src/components/CommissionTable.tsx:81-83 | the snapshots before the new one are the old store in its order, minus those for the key |
| SnapshotStore.UpsertIdempotent | team-revenue-tracker-main/src/components/CommissionTable.tsx:81-84 | saving the same snapshot twice gives the same store as saving it once |
| SnapshotStore.LookupIsFirstForKey | team-revenue-tracker-main/src/components/CommissionTable.tsx:51 | `find` returns the first snapshot for the key, or nothing when there is none |
| SnapshotStore.HasRecord | src/components/CalendarView.tsx:24-27 | `hasRecord` holds of a day exactly when some snapshot carries its date key |
| SnapshotStore.HasRecordAfterUpsert | src/components/CalendarView.tsx:24-27 | after saving day `d`, `hasRecord` holds of `d`, and every other day (from year 1) keeps its `hasRecord` value |
| EditableField.ToNumber | src/components/EditableField.tsx:28 | `Number()` never yields text; a number stays itself; text becomes the parsed number, or `NaN` exactly when it does not parse |
| EditableField.Click | src/components/EditableField.tsx:56-59 | clicking opens this field and no other, and copies the current value into the input |
| EditableField.IsEditing | src/components/EditableField.tsx:25 | a field is open exactly when the shared `editingField` holds its key, so at most one is (`EditableField.AtMostOneEditing`) |
| EditableField.Change | src/components/EditableField.tsx:45 | typing replaces the input's value with the typed text and leaves the open field alone |
| EditableField.Save | src/components/EditableField.tsx:27-30 | a save calls `onSave` with `Number(temp)` in a number field and the raw input in a text field, then closes the field |
| EditableField.KeyDown | src/components/EditableField.tsx:32-38 | Escape closes the field, restores the input to the original value and does not call `onSave`; other keys change nothing |
| EditableField.EnterIsSave | src/components/EditableField.tsx:33 | Enter behaves exactly like a save |
| EditableField.OnlyEnterSaves | src/components/EditableField.tsx:32-38 | `onSave` is called exactly for Enter; the field closes exactly for Enter or Escape, unless it was already closed |
| EditableField.ToNumberIdempotent | src/components/TeamSummary.tsx:47 | converting a converted value again changes nothing |
| EditableField.AtMostOneEditing | src/components/EditableField.tsx:25 | two fields in edit mode at once have the same key |
| EditableField.TypedEdit | src/components/EditableField.tsx:24-59 | click, type, then Enter saves the typed text (as a number in a number field); Escape saves nothing and restores the value; both close the field |
| EditableField.DisplayText | src/components/EditableField.tsx:62 | a number field holding a number shows `"<value> Kč"`; text shows as itself |
| CommissionRow.ProgressPercentage | src/components/CommissionTableRow.tsx:25-28 | the bar never exceeds 100, is full exactly when the total reaches the goal, is total/goal·100 below that, and is non-negative for non-negative contributions |
| CommissionRow.GetGoalStatus | src/components/CommissionTableRow.tsx:30-37 | "exceeded" exactly at ratio ≥ 100, "on-track" exactly at 80 ≤ ratio < 100, "behind" exactly below 80, with the source's colour and icon |
| CommissionRow.PercentBands | src/components/CommissionTableRow.tsx:32-35 | the ratio cut-offs 100 and 80 are the same as `total ≥ goal` and `100·total ≥ 80·goal` |
| CommissionRow.ExceededIffFullProgress | src/components/CommissionTableRow.tsx:27-34 | the status is "exceeded" exactly when the clamped bar is full; otherwise the bar is below 100 |
| CommissionRow.ExampleRow | src/components/CommissionTableRow.tsx:21-37 | 300 + 200 + 100 against 1000 gives total 600, a bar at 60 and "behind" |
| CommissionRow.RouteSave | src/components/CommissionTableRow.tsx:49-100 | the name cell saves text into `name`, and each amount cell saves a number into its own field |
| CommissionRow.SaveWritesOwnCell | src/components/CommissionTableRow.tsx:47-106 | saving a cell's own unchanged value writes that cell back with the same value |
| CommissionRow.FieldKeyInjective | src/components/CommissionTableRow.tsx:50-101 | two cells share a field key exactly when they are the same cell of the same row |
| CommissionRow.TeamGoalKeyIsNotACell | src/components/TeamSummary.tsx:48 | no row cell has the team goal's key `team-goal` |
| CommissionTable.InitialRows | team-revenue-tracker-main/src/components/CommissionTable.tsx:13-26 | the roster has twelve rows, each with non-negative figures, a zero total and daily goal 1000 |
| CommissionTable.InitialTeamTotal | team-revenue-tracker-main/src/components/CommissionTable.tsx:13-26 | the roster's team total is 0 |
| CommissionTable.InitialIdsUnique | team-revenue-tracker-main/src/components/CommissionTable.tsx:13-26 | the roster's ids are distinct |
| CommissionTable.Names | team-revenue-tracker-main/src/components/CommissionTable.tsx:38 | `map(entry => entry.name)` gives one name per entry, in order |
| CommissionTable.AvailableUsers | team-revenue-tracker-main/src/components/CommissionTable.tsx:38 | no "No Name" is offered, every other roster name is, as often as it appears in the roster, nothing outside the roster is, and roster order is kept |
| CommissionTable.RosterColumns | team-revenue-tracker-main/src/components/CommissionTable.tsx:13-26 | the roster's names are the ten people followed by two "No Name" rows |
| CommissionTable.PeopleAreNamed | team-revenue-tracker-main/src/components/CommissionTable.tsx:14-23 | none of the ten people is called "No Name" |
| CommissionTable.AvailableUsersOfRoster | team-revenue-tracker-main/src/components/CommissionTable.tsx:38 | the login list is exactly the ten people, in roster order |
| CommissionTable.SortedEntries | team-revenue-tracker-main/src/components/CommissionTable.tsx:41-46 | ordering keeps the number of rows and is the identity when nobody is logged in |
| CommissionTable.SortedIsPermutation | team-revenue-tracker-main/src/components/CommissionTable.tsx:41-46 | the ordered rows are a permutation of the entries |
| CommissionTable.SortedPutsUserFirst | team-revenue-tracker-main/src/components/CommissionTable.tsx:43-44 | when someone is logged in, a prefix holds exactly that user's rows and the rest holds none of them; each group keeps its original order |
| CommissionTable.SortedKeepsTeamTotal | team-revenue-tracker-main/src/components/CommissionTable.tsx:41-46 | reordering does not change the team total |
| CommissionTable.UpdateEntries | team-revenue-tracker-main/src/components/CommissionTable.tsx:89-94 | length, order and ids are kept; rows with the id get the update and the stamp; all other rows are unchanged |
| CommissionTable.UpdateKeepsIdsUnique | team-revenue-tracker-main/src/components/CommissionTable.tsx:89-94 | an update keeps distinct ids distinct |
| CommissionTable.TeamTotalAfterUpdate | team-revenue-tracker-main/src/components/CommissionTable.tsx:89-102 | with distinct ids, an update of one row changes the team total by exactly that row's change |
| CommissionTable.UnchangedWithoutId | team-revenue-tracker-main/src/components/CommissionTable.tsx:89-94 | updating an id no row has leaves the entries unchanged |
| CommissionTable.Reload | team-revenue-tracker-main/src/components/CommissionTable.tsx:49-60 | with a snapshot for the day, the entries and goal become the snapshot's; without one, the roster and 10500; nothing else changes |
| CommissionTable.Mount | team-revenue-tracker-main/src/components/CommissionTable.tsx:29-36 | the first render shows the roster, goal 10500, an empty store, nobody logged in, on the given day |
| CommissionTable.SelectDate | team-revenue-tracker-main/src/components/CommissionTable.tsx:49-60 | selecting a day changes the day and reloads: the day's snapshot entries and goal when one is saved, otherwise the roster and the default goal; the store, the user, the open field and the overlay are kept |
| CommissionTable.SaveCurrentData | team-revenue-tracker-main/src/components/CommissionTable.tsx:73-84 | a save upserts the working copy under the day's key; the re-run load gives back the same entries and goal |
| CommissionTable.AutosaveTick | team-revenue-tracker-main/src/components/CommissionTable.tsx:63-71 | a tick saves exactly when the user is truthy, and otherwise changes nothing |
| CommissionTable.UpdateEntry | team-revenue-tracker-main/src/components/CommissionTable.tsx:89-94 | an edit changes only the entries; goal, store and setting are kept |
| CommissionTable.CommitCell | src/components/CommissionTableRow.tsx:49-100 | a cell's save closes the field and applies that cell's update to the row, or leaves the entries as they are when the value does not fit; the goal, day, user, store and overlay are kept |
| CommissionTable.SetTeamGoal | src/components/TeamSummary.tsx:47 | setting the goal changes nothing but the goal |
| CommissionTable.Login | team-revenue-tracker-main/src/components/CommissionTable.tsx:104-106 | logging in records the user and changes nothing else |
| CommissionTable.Logout | team-revenue-tracker-main/src/components/CommissionTable.tsx:108-110 | logging out clears the user (nobody logged in) and changes nothing else |
| CommissionTable.MountIsValid | team-revenue-tracker-main/src/components/CommissionTable.tsx:29-36 | the first render has distinct ids and unique keys |
| CommissionTable.SaveKeepsValid | team-revenue-tracker-main/src/components/CommissionTable.tsx:73-84 | a save keeps ids distinct and date keys unique |
| CommissionTable.SelectDateKeepsValid | team-revenue-tracker-main/src/components/CommissionTable.tsx:49-60 | a reload keeps ids distinct and date keys unique |
| CommissionTable.UpdateKeepsValid | team-revenue-tracker-main/src/components/CommissionTable.tsx:89-94 | an edit keeps ids distinct and date keys unique |
| CommissionTable.SaveStoresWorkingCopy | team-revenue-tracker-main/src/components/CommissionTable.tsx:73-84 | after a save the day's lookup is the current entries and goal; other keys' lookups are unchanged |
| CommissionTable.SaveIdempotent | team-revenue-tracker-main/src/components/CommissionTable.tsx:81-84 | saving twice with nothing changed is saving once |
| CommissionTable.SaveLeaveReturn | team-revenue-tracker-main/src/components/CommissionTable.tsx:49-84 | save, move to another day and come back: the saved entries and goal are shown again |
| CommissionTable.LoadNeverMerges | team-revenue-tracker-main/src/components/CommissionTable.tsx:53-58 | selecting a day gives the same session whatever entries and goal were shown before: the load replaces, never merges |
| CommissionTable.UnsavedEditsAreDiscarded | team-revenue-tracker-main/src/components/CommissionTable.tsx:49-60 | on a day with no snapshot, edit, move away and back: the roster and goal 10500 are shown again, the edit is gone |
| CommissionTable.EditAfterSaveKeepsSnapshot | team-revenue-tracker-main/src/components/CommissionTable.tsx:77 | a saved snapshot is a copy: editing afterwards does not change what is stored |
| CommissionTable.NoAutosaveAfterLogout | team-revenue-tracker-main/src/components/CommissionTable.tsx:64 | after logout a tick changes nothing, and the store stays as it was |
| PdfExport.JsRound | team-revenue-tracker-main/src/utils/pdfExport.ts:80 | `Math.round(x)` is the integer `r` with `r − ½ ≤ x < r + ½` |
| PdfExport.JsRoundUnique | team-revenue-tracker-main/src/utils/pdfExport.ts:80 | any integer in that band is `Math.round(x)` |
| PdfExport.JsRoundHalves | team-revenue-tracker-main/src/utils/pdfExport.ts:80 | integers round to themselves, and halves round up (also below zero) |
| PdfExport.JsRoundMonotonic | team-revenue-tracker-main/src/utils/pdfExport.ts:80 | rounding is monotonic |
| PdfExport.Percentage | team-revenue-tracker-main/src/utils/pdfExport.ts:80 | 0 for a goal ≤ 0; otherwise the integer `r` with `(r − ½)·goal ≤ 100·total < (r + ½)·goal` |
| PdfExport.BandUnique | team-revenue-tracker-main/src/utils/pdfExport.ts:80 | two integers cannot share the same rounding band |
| PdfExport.PercentageUnique | team-revenue-tracker-main/src/utils/pdfExport.ts:80 | the band bounds determine the exported percentage |
| PdfExport.PercentageExceedsHundred | team-revenue-tracker-main/src/utils/pdfExport.ts:80 | the percentage is not clamped: it exceeds 100 exactly when the total reaches 100.5% of the goal |
| PdfExport.PercentageAtGoal | team-revenue-tracker-main/src/utils/pdfExport.ts:80 | a total equal to the goal exports 100%, and a zero total 0% |
| PdfExport.RowOf | team-revenue-tracker-main/src/utils/pdfExport.ts:78-90 | a row carries the entry's fields, its total `postpaid + indTv + zbytek`, and the guarded percentage |
| PdfExport.Rows | team-revenue-tracker-main/src/utils/pdfExport.ts:78-93 | one row per entry, in input order |
| PdfExport.RowsAddUpToTeamTotal | team-revenue-tracker-main/src/utils/pdfExport.ts:13-15 | the rows' totals add up to the team total of the entries |
| PdfExport.RowsConcat | team-revenue-tracker-main/src/utils/pdfExport.ts:78-93 | the rows of joined lists are the joined rows |
| PdfExport.FileName | team-revenue-tracker-main/src/utils/pdfExport.ts:116 | the name is `denni-zaznam-`, then the date key, then `.html` |
| PdfExport.FileNameInjective | team-revenue-tracker-main/src/utils/pdfExport.ts:116 | from year 1 on, different days download under different names; years 1..9999 give 28 characters |
| PdfExport.DailyRecord | team-revenue-tracker-main/src/utils/pdfExport.ts:6-11 | the export holds the file name, the rows, the passed team total and goal, and the guarded team percentage |
| PdfExport.SummaryMatchesRows | team-revenue-tracker-main/src/components/CommissionTable.tsx:116-118 | with the table's own team total passed in, the summary total equals the sum of the rows |
| PdfExport.ExampleRows | team-revenue-tracker-main/src/utils/pdfExport.ts:80 | 600 of 1000 exports 60%, 1005 of 1000 exports 101%, and a zero goal exports 0% |
| CalendarView.FirstOfMonth | src/components/CalendarView.tsx:20 | `startOfMonth` is day 1 of the same year and month |
| CalendarView.MonthStart | src/components/CalendarView.tsx:35 | `new Date(y, m, 1)` for a full year is day 1 of the month `12·y + m` months after the start of year 0 |
| CalendarView.MonthCountInjective | src/components/CalendarView.tsx:34-40 | two first-of-month days with the same month count are equal |
| CalendarView.AsWrittenStepsOneMonth | src/components/CalendarView.tsx:34-40 | outside the years 0..99 the source's stepping moves exactly one month and agrees with the corrected stepping |
| CalendarView.PreviousMonthAsWritten | src/components/CalendarView.tsx:35 | the source's step back lands on day 1 one month earlier, except that for years 0..99 it lands 1900 years later than that |
| CalendarView.NextMonthAsWritten | src/components/CalendarView.tsx:39 | the source's step forward lands on day 1 one month later, except that for years 0..99 it lands 1900 years later than that |
| CalendarView.TwoDigitYearRoundTrip | src/components/CalendarView.tsx:34-40 | as written, back from January 100 lands in December 99, and forward from there lands in January 2000 |
| CalendarView.PreviousMonth | src/components/CalendarView.tsx:35 | the corrected step back: the previous month, on day 1, one month count earlier |
| CalendarView.NextMonth | src/components/CalendarView.tsx:39 | the corrected step forward: the next month, on day 1, one month count later |
| CalendarView.StepRoundTrip | src/components/CalendarView.tsx:34-40 | back then forward, and forward then back, give day 1 of the month shown |
| CalendarView.StepRollover | src/components/CalendarView.tsx:35-39 | January steps back into December of the year before, December forward into January of the year after; other months stay in their year |
| CalendarView.LeadingBlanks | src/components/CalendarView.tsx:72 | the blank count is in 0..6; it is 0 exactly for a month starting on Monday and 6 exactly for one starting on Sunday |
| CalendarView.BlanksAreDaysSinceMonday | src/components/CalendarView.tsx:72 | the blank count is the number of days since the last Monday |
| CalendarView.NextFirstDayNumber | src/components/CalendarView.tsx:20-22 | the first of the next month is this month's length after the first of this one |
| CalendarView.NextMonthBlanks | src/components/CalendarView.tsx:72 | next month's blanks continue where this month's last week ends |
| CalendarView.MonthDays | src/components/CalendarView.tsx:20-22 | the days are exactly day 1 to the month's last day, in increasing order, in the same month |
| CalendarView.Marks | src/components/CalendarView.tsx:76-78 | one mark per shown day, set exactly when the store has the day's key |
| CalendarView.SaveMarksSelectedDay | src/components/CalendarView.tsx:24-27 | after a save `hasRecord` holds of the selected day, and every other day keeps its value |
| CalendarView.Dots | src/components/CalendarView.tsx:77-93 | a shown day carries the dot exactly when the store has its key and it is not the selected day |
| CalendarView.DotsAreMarksOffSelection | src/components/CalendarView.tsx:77-93 | the selected day never shows a dot, and every other day shows one exactly when `hasRecord` holds |
| CalendarView.SavedDayShowsDotOnceLeft | src/components/CalendarView.tsx:77-93 | right after a save the saved, still selected day shows no dot; after choosing another day it does |
| CalendarView.OpenOn | src/components/CalendarView.tsx:18 | the overlay opens on the selected day's month |
| CalendarView.OpenCalendarView | team-revenue-tracker-main/src/components/CommissionTable.tsx:112-114 | opening the overlay keeps the day, entries, goal, store, user and open field |
| CalendarView.HandleDateClick | src/components/CalendarView.tsx:29-32 | a click selects the day, closes the overlay and loads the day's snapshot or the roster |
| CalendarView.ClickShowsSnapshot | src/components/CalendarView.tsx:29-32 | clicking a saved day shows exactly its snapshot |
| Announcements.Published | team-revenue-tracker-main/src/components/AnnouncementSidebar.tsx:68-75 | the new announcement carries the id, the draft's title, content and type, author "Admin" and "právě teď" |
| Announcements.Add | team-revenue-tracker-main/src/components/AnnouncementSidebar.tsx:65-82 | an empty title or content changes nothing; otherwise exactly one announcement is put in front of the unchanged old list and the form is reset |
| Announcements.Delete | team-revenue-tracker-main/src/components/AnnouncementSidebar.tsx:84-86 | no card with the id is left, every other card keeps its number of copies and its order, nothing new appears, and the form is untouched |
| Announcements.DeleteAbsent | team-revenue-tracker-main/src/components/AnnouncementSidebar.tsx:85 | deleting an id nobody has changes nothing |
| Announcements.DeleteIdempotent | team-revenue-tracker-main/src/components/AnnouncementSidebar.tsx:85 | deleting twice is deleting once |
| Announcements.DeleteCommutes | team-revenue-tracker-main/src/components/AnnouncementSidebar.tsx:85 | two deletions give the same list in either order |
| Announcements.DeleteUndoesAdd | team-revenue-tracker-main/src/components/AnnouncementSidebar.tsx:65-86 | publishing under a fresh id and deleting that id restores the list |
| Announcements.OpenForm | team-revenue-tracker-main/src/components/AnnouncementSidebar.tsx:149 | the add button opens the form and keeps the list and the draft |
| Announcements.Cancel | team-revenue-tracker-main/src/components/AnnouncementSidebar.tsx:186 | cancel closes the form and keeps the list and the draft |
| Announcements.SetTitle | team-revenue-tracker-main/src/components/AnnouncementSidebar.tsx:162 | the title input sets the title and nothing else |
| Announcements.SetContent | team-revenue-tracker-main/src/components/AnnouncementSidebar.tsx:168 | the content input sets the content and nothing else |
| Announcements.SetKind | team-revenue-tracker-main/src/components/AnnouncementSidebar.tsx:174 | the type select sets the type and nothing else |
| Announcements.CancelKeepsDraft | team-revenue-tracker-main/src/components/AnnouncementSidebar.tsx:149-186 | cancelling and reopening publishes what was typed before |
| Announcements.FillAndPublish | team-revenue-tracker-main/src/components/AnnouncementSidebar.tsx:65-82 | filling the form and publishing puts exactly that announcement on top and leaves an empty, closed form |
| Announcements.BadgesDistinguishKinds | team-revenue-tracker-main/src/components/AnnouncementSidebar.tsx:88-113 | colour, icon and label each tell the four types apart |
| Announcements.TypeColor | team-revenue-tracker-main/src/components/AnnouncementSidebar.tsx:88-96 | the badge colour per type, grey as the default; `Announcements.BadgesDistinguishKinds` shows each type has its own |
| Announcements.TypeIcon | team-revenue-tracker-main/src/components/AnnouncementSidebar.tsx:97-105 | the badge icon per type, the megaphone as the default; each type has its own |
| Announcements.TypeLabel | team-revenue-tracker-main/src/components/AnnouncementSidebar.tsx:106-113 | the Czech badge label per type, "obecné" as the default; each type has its own |
| Announcements.GeneralIsDefault | team-revenue-tracker-main/src/components/AnnouncementSidebar.tsx:93-111 | the general type gets the default branch: grey, megaphone, "obecné" |
| LoginForm.TrimStart | src/components/LoginForm.tsx:18 | removes the leading white space only, leaving a suffix that starts with a non-space, empty exactly for a blank string |
| LoginForm.TrimEnd | src/components/LoginForm.tsx:18 | removes the trailing white space only, leaving a prefix that ends with a non-space, empty exactly for a blank string |
| LoginForm.Trim | src/components/LoginForm.tsx:18 | `trim()` is empty exactly when every character is white space, and otherwise starts and ends with a non-space |
| LoginForm.TrimSurrounds | src/components/LoginForm.tsx:18 | the string is leading white space, then the trimmed string, then trailing white space |
| LoginForm.TrimIdempotent | src/components/LoginForm.tsx:18 | trimming twice is trimming once |
| LoginForm.TrimOfTrimmed | src/components/LoginForm.tsx:18 | a string with no white space at either end is its own trim |
| LoginForm.HandleSubmit | src/components/LoginForm.tsx:16-21 | `onLogin` is called exactly when the choice has a non-white-space character, and it gets the choice untrimmed |
| LoginForm.SubmitDisabled | src/components/LoginForm.tsx:53 | the button is disabled exactly for the empty choice; `LoginForm.DisabledNeverLogsIn` shows a disabled button never logs in |
| LoginForm.DisabledNeverLogsIn | src/components/LoginForm.tsx:18-53 | a disabled button never logs in; a single space enables the button but is still rejected |
| LoginForm.Options | src/components/LoginForm.tsx:45-50 | the empty prompt comes first, then one option per user, in order |
| LoginForm.Pick | src/components/LoginForm.tsx:41 | choosing the prompt gives "", and choosing option `i` gives the `i`-th user |
| LoginForm.Submit | team-revenue-tracker-main/src/components/CommissionTable.tsx:104-106 | a submit logs in the untrimmed choice when the guard passes, and changes nothing otherwise |
| LoginForm.RosterOptions | src/components/LoginForm.tsx:45-50 | on the first render the select offers the prompt and the ten people, in roster order |
| LoginForm.PickingARosterPersonLogsIn | src/components/LoginForm.tsx:16-50 | picking any roster person and submitting logs exactly that person in; picking the prompt logs nobody in |
| TeamSummary.Fulfilment | src/components/TeamSummary.tsx:58 | the "Plnění" figure `r` satisfies `r·goal = 100·total` |
| TeamSummary.FulfilmentAgainstGoal | src/components/TeamSummary.tsx:58-61 | against a positive goal the figure passes 100 exactly when the total passes the goal, and is 100 exactly at the goal |
| TeamSummary.FulfilmentMonotonic | src/components/TeamSummary.tsx:58-61 | a larger total never shows a smaller figure |
| TeamSummary.FulfilmentUnclamped | src/components/TeamSummary.tsx:61 | the figure is not clamped: twice the goal shows 200, nothing shows 0 |
| TeamSummary.ExportRoundsFulfilment | team-revenue-tracker-main/src/utils/pdfExport.ts:101 | the exported team percentage is within half a point of the card's figure |
| TeamSummary.InitialFulfilment | src/components/TeamSummary.tsx:58 | the first render shows 0% |
| TeamSummary.IsTodayIffSameDay | src/components/TeamSummary.tsx:26 | from year 1 on, "today" holds exactly when the selected day is today |
| TeamSummary.IsToday | src/components/TeamSummary.tsx:26 | "today" compares the date keys of the two days; `TeamSummary.IsTodayIffSameDay` shows this is the same day from year 1 on |
| TeamSummary.ShortDate | src/components/TeamSummary.tsx:33 | `d. M.` starts with the day's digits and ends with a dot |
| TeamSummary.Heading | src/components/TeamSummary.tsx:33 | the heading says "dnes" for today and the short date otherwise |
| TeamSummary.HeadingSaysToday | src/components/TeamSummary.tsx:26-33 | the heading is "dnes" exactly when the day is today |
| TeamSummary.DigitsBeforeDot | src/components/TeamSummary.tsx:33 | two numerals each followed by a dot at the front of one string are the same numeral |
| TeamSummary.ShortDateShowsDayAndMonth | src/components/TeamSummary.tsx:33 | two days have the same short date exactly when they share day and month |
| TeamSummary.CommitTeamGoal | src/components/TeamSummary.tsx:45-53 | the goal's save closes the field and sets the goal to `Number(value)`; the rows, store, day and user are kept |
| TeamSummary.EnterSetsGoal | src/components/TeamSummary.tsx:45-53 | typing a numeral in the open goal field and pressing Enter sets the goal to its number and closes the field |

## Left out

- Rendering: JSX, CSS classes, icons as components, the popover and overlay wiring, and the `!currentUser` choice between the login form and the table.
- `DateHeader`, `Index` and `LiveClock` are layout and clock display. DateHeader's day comparison is the same key comparison as `TeamSummary.IsToday`.
- Timers: the 30-second `setInterval` and its cleanup. An autosave firing is the explicit action `CommissionTable.AutosaveTick`.
- React scheduling: state updates are applied at once, and the load effect runs right after the change that triggers it.
- Browser I/O in the export: the HTML text, the `Blob`, the object URL, the link click and `console.log`. The export is the record `PdfExport.Export`.
- Formatting by foreign libraries: `toLocaleString`, `toLocaleTimeString`, `toFixed(1)` of the fulfilment, `toFixed(0)` of the row's progress badge, the Czech month name of the calendar title and the export's "generated at" time. `lastUpdated` stamps and `Date.now()` ids are parameters.
- IEEE floating point: money is exact `real`, so rounding error, `Infinity` and `NaN` are not modelled.
- CommissionRow.ProgressPercentage: requires a positive daily goal, because the source divides by it without a guard. A zero goal gives `Infinity` or `NaN` in JavaScript. A negative goal, which can be typed into the cell, gives a finite negative ratio that the model does not cover.
- CommissionRow.GetGoalStatus: requires a positive daily goal, for the same reasons: a zero goal divides by zero, and a negative goal's finite ratio is not covered.
- TeamSummary.Fulfilment: requires a non-zero team goal, because the source divides by it without a guard.
- CommissionTable.CommitCell: a number cell whose text does not parse saves `NaN` in JavaScript. A `real` field cannot hold it, so the model makes no update.
- TeamSummary.CommitTeamGoal: a goal text that does not parse sets the goal to `NaN` in JavaScript. The model keeps the old goal.
- `Number()` parsing of text is the parameter `parse`; its grammar is not modelled.
- Dates.KeyInjective: stated from year 1 on only. For years up to 0, date-fns writes the era year, so year 0 and year 1 share a key.
- The range limit of JavaScript dates (±8.64·10^15 ms) is not modelled; every Gregorian date is allowed.
- Time zones: a date is a local calendar day.
- Selecting an option that is not in the list is not possible in the browser; `LoginForm.Pick` takes an index into the options.
- The `required` attribute of the user select is not modelled separately: it blocks the same empty choice as the disabled button.
- The type declarations of `types/commission.ts` are transcribed as the datatypes `Commission.Entry`, `Commission.DailyData` and `CommissionRow.GoalStatus`.

## Findings

| source | as written | input that shows it | evidently intended | confidence | as-written member | corrected member |
|---|---|---|---|---|---|---|
| src/components/CalendarView.tsx:34-40 | `new Date(prev.getFullYear(), prev.getMonth() ± 1, 1)`; the `Date` constructor reads a year argument 0..99 as 1900 + year (section 21.4.2.1 of ECMA-262) | January of year 100: back gives December of year 99, then forward gives January 2000 instead of January 100 | step exactly one month back or forward, for every year | not executed | CalendarView.TwoDigitYearRoundTrip | CalendarView.StepRoundTrip |
