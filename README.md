# College administration front end: schedule grid, filters and class form

This project models the client-side logic of two pages of a college
administration web front end, written in React, and proves properties of
that model.

- **The professor page** (`src/pages/ProfessorPage.js`) has three pieces:
  - It draws a weekly schedule. There are five weekday columns and twelve hour rows, 8 to 19. Each cell holds the professor's classes that meet on that day and whose whole-hour span, from the start hour up to but not including the end hour, contains the row's hour.
  - It has search filters: a name and a department query, a tenure toggle and a salary comparison with an amount. A change of the name, the department or the tenure always sends a search request. A change of the salary comparison or amount sends one only when a comparison is chosen and the amount is not empty. The model builds the request body.
  - It has two display helpers. `formatTime` turns `HH:MM:SS` into a 12-hour clock text. `getDayName` turns a day code into a weekday name.
- **The class page** (`src/pages/ClassPage.js`) has an add/edit form with the following parts:
  - The form holds a list of weekly meetings. You can change one field of a meeting, append the default meeting, or remove one meeting, but never the last one.
  - Time inputs show `HH:MM` and store `HH:MM:SS`.
  - A day select offers the day codes.
  - After a submission, the page shows an alert that depends on how the server answered.
  - This page also has `formatTime` and `getDayName`, character for character the same as the professor page's. The model defines them once.

Modules:

- `Wrappers`: `Option`.
- `JsText`: the JavaScript built-ins the pages rely on:
  - `String.prototype.split` on one character, and its inverse `Join`;
  - `parseInt`, in its two forms: with radix 10, and without a radix, which also accepts a `0x` prefix;
  - the decimal text of an integer;
  - the truncating `%`.

  JavaScript's `NaN` is `None`.
- `Records`: the server's meeting and class records.
- `ScheduleDisplay`: `formatTime` and `getDayName`.
- `WeeklyGrid`: the schedule grid. The page builds each cell with nested `forEach` loops that `push`. In the model those loops are the methods `CellEntries` and `MeetingEntries`, built in turn by `BuildColumn` and `BuildGrid`. They are proved equal to a recursive specification, `CellSpec`. What a cell holds is then proved about `CellSpec`.
- `ProfessorSearch`: the request body as a pure function, and the filter state as a class whose methods are the page's handlers.
- `ClassForm`: the pure edits of the meeting list and time texts, and the form state as a class whose methods are the page's handlers.

Inputs from the outside world are parameters:

- server answers: the professor list, the outcome of a submission;
- values typed into inputs;
- dates that have already been formatted.

Where the professor page sends a search, the handler returns the request body it would send, or nothing when it sends none. The class page's submission sends the form as it stands; the model gives its method and path (`ClassForm.SubmitTarget`) and leaves the JSON text of the form out.

The model follows the code in two places where a reader might expect otherwise:

- **Partial hours.** A meeting from 10:00 to 11:30 shows only in the 10 o'clock row, because the code compares whole hours (`hour >= startHour && hour < endHour`, src/pages/ProfessorPage.js:621); a meeting from 10:15 to 10:45 shows in no row. See `WeeklyGrid.HalfHourEndIsDropped` and `WeeklyGrid.WithinOneHourIsHidden`.
- **Schedule conflicts.** The client has no schedule-conflict check. A conflict reaches it only as HTTP status 409 (src/pages/ClassPage.js:256), which `ClassForm.SubmitAlert` maps to its message.

## Model

| member | source | states |
|---|---|---|
| JsText.Split | src/pages/ProfessorPage.js:351 | `split(':')` always gives at least one field |
| JsText.SplitFieldsAreSeparatorFree | src/pages/ProfessorPage.js:351 | no field of a split contains the separator |
| JsText.JoinSplit | src/pages/ProfessorPage.js:351 | joining the fields of a split with the separator gives the text back |
| JsText.SplitJoin | src/pages/ProfessorPage.js:351 | splitting a join of separator-free fields gives the fields back |
| JsText.SplitNoSeparator | src/pages/ProfessorPage.js:351 | a text without the separator splits into itself alone |
| JsText.SplitAtFirst | src/pages/ProfessorPage.js:351 | the first field ends at the first separator; the rest is the split of what follows it |
| JsText.DecimalDigitsAreZeroToNine | src/pages/ProfessorPage.js:352 | the digits `parseInt` reads with radix 10 are exactly `0` to `9` |
| JsText.DigitRunLength | src/pages/ProfessorPage.js:352 | `parseInt` reads a run of digits no longer than the text |
| JsText.DigitRunIsLongest | src/pages/ProfessorPage.js:352 | the digit run `parseInt` reads is all digits, and it stops at the first non-digit |
| JsText.DigitRunLengthOfDigits | src/pages/ProfessorPage.js:352 | a text made only of digits is read whole |
| JsText.TrimStart | src/pages/ProfessorPage.js:352 | trimming leading white space never lengthens the text |
| JsText.TrimStartDropsWhitespace | src/pages/ProfessorPage.js:352 | the trimmed text is a suffix that does not start with white space, and everything dropped is white space |
| JsText.TrimStartNoop | src/pages/ProfessorPage.js:352 | a text starting with a non-white-space character is not changed by trimming |
| JsText.ParseIntOfDigits | src/pages/ProfessorPage.js:352 | `parseInt` of a non-empty digit text is its decimal value, in both the radix-10 and the radix-less form |
| JsText.ParseIntOfNegatedDigits | src/pages/ProfessorPage.js:352 | `parseInt` of `-` followed by digits is the negated decimal value |
| JsText.NatToString | src/pages/ProfessorPage.js:355 | the decimal text of a number is non-empty, all digits, and has no leading zero |
| JsText.NatToStringValue | src/pages/ProfessorPage.js:355 | reading the decimal text of a number gives the number back |
| JsText.ParseIntNumberToString | src/pages/ProfessorPage.js:352-355 | `parseInt` of the text of any integer gives the integer back |
| JsText.JsRem | src/pages/ProfessorPage.js:354 | JavaScript's `%` has the sign of the dividend and a magnitude below the divisor |
| JsText.JsRemTwelveResidue | src/pages/ProfessorPage.js:354 | `h - h % 12` is a multiple of 12 |
| ScheduleDisplay.ClockHour | src/pages/ProfessorPage.js:354 | `hour % 12 \|\| 12` is 12 for `NaN`; for a non-negative hour it is in 1..12 and agrees with the hour modulo 12 |
| ScheduleDisplay.Meridiem | src/pages/ProfessorPage.js:353 | the suffix is `PM` exactly when the hour is a number of at least 12, and `AM` otherwise |
| ScheduleDisplay.SplitTimeFields | src/pages/ProfessorPage.js:351 | splitting `hh:mm` followed by nothing or by `:...` gives `hh` then `mm` |
| ScheduleDisplay.FormatTimeOfTime | src/pages/ProfessorPage.js:350-356 | for a digit-run hour `h`, `formatTime` shows the 12-hour clock hour of `h`, passes the minutes text through unchanged and appends `PM` exactly when `h >= 12` |
| ScheduleDisplay.ClockRoundTrip | src/pages/ProfessorPage.js:353-354 | for every hour 0..23, the 12-hour hour and the suffix give the hour back |
| ScheduleDisplay.TwoDigitText | src/pages/ProfessorPage.js:350 | the two-digit text of an hour below 100 is two digits |
| ScheduleDisplay.TwoDigitValue | src/pages/ProfessorPage.js:352 | the two-digit text of an hour reads back as that hour |
| ScheduleDisplay.FormatTimeOfHour | src/pages/ProfessorPage.js:350-356 | `formatTime` of `HH:MM:SS` with a two-digit hour shows that hour on the 12-hour clock, the minutes and the suffix |
| ScheduleDisplay.FormatTimeMidnight | src/pages/ClassPage.js:278-284 | hour 00 shows as `12:mm AM` |
| ScheduleDisplay.FormatTimeNoon | src/pages/ClassPage.js:278-284 | hour 12 shows as `12:mm PM` |
| ScheduleDisplay.FormatTimeWithoutColon | src/pages/ProfessorPage.js:350-356 | a text with no colon and no number shows as `12:undefined AM` |
| ScheduleDisplay.GetDayNameOfCodes | src/pages/ProfessorPage.js:359-370 | M, T, W, R, F, SAT, SUN name Monday through Sunday, in order |
| ScheduleDisplay.GetDayNameUnchanged | src/pages/ClassPage.js:287-298 | a code comes back unchanged exactly when it is not one of the seven codes |
| ScheduleDisplay.GetDayNameInjective | src/pages/ProfessorPage.js:359-370 | two different codes never show the same weekday name |
| WeeklyGrid.ColumnCodesAreWeekdays | src/pages/ProfessorPage.js:602-603 | the five columns use codes M, T, W, R, F, in that order |
| WeeklyGrid.ColumnCodeNamesItsColumn | src/pages/ProfessorPage.js:602-603 | each column's code maps back, through `getDayName`, to the column's header |
| WeeklyGrid.TimeLabelAgreesWithFormatTime | src/pages/ProfessorPage.js:596-598 | for every row hour 8..19, the label `hour > 12 ? hour - 12 : hour` with its suffix is what `formatTime` shows for that hour on the hour |
| WeeklyGrid.HourOfTime | src/pages/ProfessorPage.js:618-619 | the hour read from a stored time with a two-digit hour is that hour |
| WeeklyGrid.CoversWholeHours | src/pages/ProfessorPage.js:617-621 | a meeting from `h1:..` to `h2:..` covers, on its day, exactly the hours `h1 <= hour < h2`; minutes play no part |
| WeeklyGrid.HalfHourEndIsDropped | src/pages/ProfessorPage.js:617-621 | a 10:00–11:30 meeting covers hour 10 and no other |
| WeeklyGrid.WithinOneHourIsHidden | src/pages/ProfessorPage.js:617-621 | a 10:15–10:45 meeting covers no hour |
| WeeklyGrid.WeekendSlotIsHidden | src/pages/ProfessorPage.js:602-603 | a Saturday or Sunday meeting covers no cell of the five columns |
| WeeklyGrid.FindClass | src/pages/ProfessorPage.js:614 | a class found in the catalog is in it and has the id |
| WeeklyGrid.FindClassFindsFirst | src/pages/ProfessorPage.js:614 | `find` fails exactly when no class has the id, and otherwise returns the first one that has it |
| WeeklyGrid.CellEntries | src/pages/ProfessorPage.js:610-633 | the nested loops compute exactly the specified cell, for every input |
| WeeklyGrid.MeetingEntries | src/pages/ProfessorPage.js:616-630 | the inner loop over one class's meetings gives the entries of its covering meetings, in schedule order |
| WeeklyGrid.BuildColumn | src/pages/ProfessorPage.js:608-609 | a column has twelve cells, and cell `r` is the cell for hour `8 + r` |
| WeeklyGrid.BuildGrid | src/pages/ProfessorPage.js:602-609 | the grid has five columns of twelve cells, and each cell is the specified cell of its column's code and row's hour |
| WeeklyGrid.SlotEntriesMembership | src/pages/ProfessorPage.js:616-628 | within one class, an entry is in the cell exactly when an accepted meeting gives it |
| WeeklyGrid.TaughtEntriesMembership | src/pages/ProfessorPage.js:613-632 | the entries of all taught classes are exactly those some taught class gives |
| WeeklyGrid.ClassEntriesMembership | src/pages/ProfessorPage.js:614-631 | one taught class's entries are those of its accepted meetings, and none when it is not found or has no schedule |
| WeeklyGrid.CellMembership | src/pages/ProfessorPage.js:610-633 | a cell holds an entry exactly when the catalog is not empty and some taught class, found with a schedule, has a meeting on the cell's day whose whole-hour span covers the hour; the entry carries that class and meeting |
| WeeklyGrid.TaughtEntriesSnoc | src/pages/ProfessorPage.js:613 | one more taught class adds its entries at the end |
| WeeklyGrid.TaughtEntriesAppend | src/pages/ProfessorPage.js:613 | entries of earlier taught classes come first in a cell |
| WeeklyGrid.SlotEntriesAppend | src/pages/ProfessorPage.js:616 | within one class, entries follow schedule order |
| WeeklyGrid.UnscheduledLastAddsNothing | src/pages/ProfessorPage.js:615 | appending a class that the lookup does not schedule adds nothing |
| WeeklyGrid.UnscheduledAddsNothing | src/pages/ProfessorPage.js:614-615 | a taught class that is not found, or has no schedule, can be left out without changing the entries |
| WeeklyGrid.UnscheduledClassContributesNothing | src/pages/ProfessorPage.js:614-615 | such a class changes no cell |
| WeeklyGrid.WeekendOnlyCatalogIsHidden | src/pages/ProfessorPage.js:602-621 | when every meeting in the catalog is on Saturday or Sunday, every cell is empty |
| ProfessorSearch.SalaryTypeText | src/pages/ProfessorPage.js:492-502 | a comparison is sent as `greater` or `less` |
| ProfessorSearch.FieldNameInjective | src/pages/ProfessorPage.js:103-110 | different body members have different JSON names |
| ProfessorSearch.Keys | src/pages/ProfessorPage.js:117 | the member names of a body, one per member, in order |
| ProfessorSearch.Lookup | src/pages/ProfessorPage.js:117 | a body has a value under a name exactly when the name is among its members |
| ProfessorSearch.LookupAppend | src/pages/ProfessorPage.js:103-110 | a lookup in two concatenated bodies finds the first body's member when there is one |
| ProfessorSearch.SearchBodyMember | src/pages/ProfessorPage.js:103-110 | the body always holds the name. It holds the department only when that is not empty, the tenure whenever it is not `null` (0 included), and the comparison text together with the amount only when a comparison is set |
| ProfessorSearch.SearchBodyKeys | src/pages/ProfessorPage.js:103-110 | the body starts with `name`, has each member at most once and in the order they are added, and has `salary` exactly when it has `salaryValue` |
| ProfessorSearch.SearchBodyKeysAre | src/pages/ProfessorPage.js:103-110 | the member names are `name`, then each filter that is set |
| ProfessorSearch.PresentKeysAscend | src/pages/ProfessorPage.js:103-110 | those names are strictly in insertion order, and `salary` comes with `salaryValue` |
| ProfessorSearch.KeysAppend | src/pages/ProfessorPage.js:117 | the names of concatenated bodies are the concatenated names |
| ProfessorSearch.FiltersActiveIffBodyFilters | src/pages/ProfessorPage.js:347 | `hasActiveFilters` holds exactly when the search body carries more than the name |
| ProfessorSearch.ToggleChoice | src/pages/ProfessorPage.js:157-174 | a toggle clears the choice exactly when the value was chosen, and otherwise chooses that value |
| ProfessorSearch.ToggleTwice | src/pages/ProfessorPage.js:157-174 | toggling one value twice returns to the start exactly when the start was nothing or that value |
| ProfessorSearch.FilterState.constructor | src/pages/ProfessorPage.js:6-17 | every filter starts unset and the menu starts closed |
| ProfessorSearch.FilterState.ToggleFilterMenu | src/pages/ProfessorPage.js:96-98 | the menu flips and nothing else changes |
| ProfessorSearch.FilterState.HandleSearchChange | src/pages/ProfessorPage.js:133-143 | the name query is replaced, and a search is sent with the other filters as they are |
| ProfessorSearch.FilterState.HandleDepartmentChange | src/pages/ProfessorPage.js:145-155 | the department query is replaced, and a search is sent with the other filters as they are |
| ProfessorSearch.FilterState.HandleTenureChange | src/pages/ProfessorPage.js:157-167 | the tenure filter is toggled, a search is always sent, and nothing else changes |
| ProfessorSearch.FilterState.HandleSalaryFilterChange | src/pages/ProfessorPage.js:169-185 | the comparison is toggled and the amount kept; a search is sent exactly when a comparison is now set and the amount is not empty |
| ProfessorSearch.FilterState.HandleSalaryValueChange | src/pages/ProfessorPage.js:187-203 | the amount is replaced; a search is sent exactly when a comparison is set and the new amount is not empty |
| ProfessorSearch.FilterState.ClearFilters | src/pages/ProfessorPage.js:205-211 | all filters are unset and the menu closed, the name query is kept, the search body is the name alone, and no filter is active afterwards |
| ProfessorSearch.FilterState.SelectClass | src/pages/ProfessorPage.js:641 | clicking a class in the grid toggles the selection |
| ClassForm.UpdateSlotFields | src/pages/ClassPage.js:186-190 | the updated field reads back the new value, the other fields keep theirs, and writing a field's own value is a no-op |
| ClassForm.SetScheduleFieldChangesOneField | src/pages/ClassPage.js:185-195 | only the named field of the meeting at the index changes: the length, the other meetings and that meeting's other fields stay |
| ClassForm.AddScheduleItemAppends | src/pages/ClassPage.js:197-205 | the list grows by one, the earlier meetings stay, and the default meeting M 10:00:00–11:30:00 is last |
| ClassForm.WithoutIndex | src/pages/ClassPage.js:209 | the filter never lengthens the list |
| ClassForm.WithoutIndexCuts | src/pages/ClassPage.js:209 | the filter drops exactly the meeting at a listed index, and nothing at an index that is not listed |
| ClassForm.RemoveScheduleItemCases | src/pages/ClassPage.js:207-215 | with more than one meeting, the meeting at a listed index is dropped and the rest keep their order; with one meeting nothing changes |
| ClassForm.EditsKeepAMeeting | src/pages/ClassPage.js:185-215 | no edit empties a list that has a meeting |
| ClassForm.DayOptionsAreTheDayCodes | src/pages/ClassPage.js:535-541 | the select offers the seven codes in week order, each labelled as `getDayName` names it, and the default day M is among them |
| ClassForm.TimeInputValue | src/pages/ClassPage.js:548 | the input shows the first five characters of the stored time, or all of it when shorter |
| ClassForm.TimeInputRoundTrip | src/pages/ClassPage.js:548-549 | storing an `HH:MM` input and showing it again gives the input back |
| ClassForm.StoredTimeRoundTrip | src/pages/ClassPage.js:548-549 | showing an eight-character stored time and storing it again gives it back exactly when its seconds are `:00` |
| ClassForm.ClearedTimeIsInNoCell | src/pages/ClassPage.js:549 | a time cleared in its input is stored as `:00`; a meeting with such a time is in no cell of the professor's grid |
| ClassForm.ClearedInputHasNoHour | src/pages/ClassPage.js:549 | the hour of `:00` is `NaN` |
| ClassForm.NewClassFormDefaults | src/pages/ClassPage.js:97-107 | the add form names the first professor when there is one and none otherwise, has 3 units, 30 seats, empty texts, and the default meeting alone |
| ClassForm.FindProfessor | src/pages/ClassPage.js:121 | a professor found by name is in the list and has the name; none is found when no professor has it |
| ClassForm.FindProfessorFindsFirst | src/pages/ClassPage.js:121 | the professor found is the first with the name |
| ClassForm.EditProfessorChoice | src/pages/ClassPage.js:121 | the edit form keeps the class's nonzero professor id; otherwise it takes the first professor with the class's professor name when that one's id is nonzero; it never picks id 0 |
| ClassForm.SubmitTarget | src/pages/ClassPage.js:223-239 | adding posts to `/classes/add`; editing patches the current class's id, and fails before any request without a current class |
| ClassForm.SubmitAlertCases | src/pages/ClassPage.js:243-274 | a success names the mode; 409 shows the conflict message; another refusal shows the server's error text, or `An error occurred` when it is missing or empty; an exception shows the request error |
| ClassForm.ClassPageState.constructor | src/pages/ClassPage.js:11-23 | the initial form is the add form for no professors, with one meeting |
| ClassForm.ClassPageState.SetProfessors | src/pages/ClassPage.js:51 | the professor list is replaced and nothing else changes |
| ClassForm.ClassPageState.OpenAddModal | src/pages/ClassPage.js:97-110 | the form is reset to the add form for the current professors, the mode is add, there is no current class, and the modal is open |
| ClassForm.ClassPageState.OpenEditModal | src/pages/ClassPage.js:112-131 | the form holds the class's values, the mode is edit, the class is current, and the modal is open; the form lists a meeting exactly when the class does |
| ClassForm.ClassPageState.CloseModal | src/pages/ClassPage.js:170-173 | the modal is closed with no current class, and the form is kept |
| ClassForm.ClassPageState.HandleScheduleChange | src/pages/ClassPage.js:185-195 | the form's list becomes the one-field update, and nothing else changes |
| ClassForm.ClassPageState.AddScheduleItemToForm | src/pages/ClassPage.js:197-205 | the default meeting is appended to the form's list, and nothing else changes |
| ClassForm.ClassPageState.RemoveScheduleItemFromForm | src/pages/ClassPage.js:207-215 | the loop computes the filter while more than one meeting is listed, and the list keeps at least one meeting |
| ClassForm.ClassPageState.ApplySubmitOutcome | src/pages/ClassPage.js:241-274 | the alert is the one for the outcome, and on success the modal closes with no current class |

## Left out

- Network requests and page plumbing are not modelled:
  - the `fetch` calls, response decoding and loading flags;
  - `localStorage` sessions and the role check, routing and logout;
  - JSX rendering, `window.confirm`, and the `setTimeout` that clears alerts.

  Where the page sends a search, the model returns the request body. Where it awaits an answer, the answer is a parameter.
- The professor page's own professor form is not modelled: `openAddModal`, `openEditModal`, `handleInputChange`, `handleSubmit` and `handleDelete`. Its `handleInputChange` converts years worked and salary with `parseFloat` (src/pages/ProfessorPage.js:253), which is floating point, and its submit and delete are network requests.
- `handleDelete` on the class page is only network and alerts, and is not modelled.
- ClassForm.ClassPageState.OpenEditModal: the page formats the class's dates with `new Date(...).toISOString()`. The model takes them already formatted, since this is a Date library call.
- `handleInputChange` on the class page is not modelled. It stores `parseInt(value)` for units, seats and the professor, and the text otherwise.
- ClassForm.SetScheduleField: requires an index of a listed meeting. The page only calls it with the index of a meeting it renders (src/pages/ClassPage.js:185-195). The model represents none of the three things JavaScript would do at another index:
  - at the index equal to the length, spreading `undefined` gives `{}`, so a one-field meeting `{[field]: value}` is appended, and the next render fails at `.substring` (src/pages/ClassPage.js:548);
  - at a negative index, the assignment sets a property that is not an element, which the spread, `.map` and `JSON.stringify` ignore, so the list is unchanged;
  - at an index past the length, the array gets holes.
- ClassForm.ClassPageState.HandleScheduleChange: requires an index of a listed meeting, for the same reason.
- ClassForm.EditClassForm: the class's schedule is taken as a list. A server record without a schedule would make the page fail on `.map`, and that case is not modelled.
- Numbers are Dafny integers:
  - the model has no floating point, no precision loss for very large values, and no `-0`;
  - `parseInt`'s `NaN` is `None`;
  - a class id is an integer, so JavaScript's `===` between ids of different types is not modelled.
- `days[dayCode]` in `getDayName` is a lookup in a plain JavaScript object. Inherited keys such as `constructor` are not modelled: those codes come back unchanged here, while the page would return the inherited value.
- The grid is drawn only when the professor has classes and the catalog is not empty (src/pages/ProfessorPage.js:588). The model computes the cells whether or not they are drawn. An empty catalog gives empty cells, as the code's own guard at line 612 does.
- The class detail panel under the grid is not modelled (src/pages/ProfessorPage.js:656-683). It shows only when the selected id is truthy, so a class with id 0 can be selected but shows no details.
- The professor card, the class detail panel and the class cards (src/pages/ProfessorPage.js:686-700) are rendering only. They format the salary with `toLocaleString` and the dates with `toLocaleDateString` (src/pages/ProfessorPage.js:559, 661, 697), which are locale library calls, and are not modelled.
- Records.Slot: every stored time is a string. A meeting whose `start_time` or `end_time` is null or missing makes `split(':')` throw (src/pages/ProfessorPage.js:618-619, and `formatTime` at line 351), so the page fails to render; the model has no such meeting and does not capture that failure.
- Strings are sequences of Unicode code points, while JavaScript's `substring` (src/pages/ClassPage.js:548, `ClassForm.TimeInputValue`), `charAt` (src/pages/ProfessorPage.js:603, `WeeklyGrid.ColumnCode`) and `split` count UTF-16 code units. The two differ only on characters outside the Basic Multilingual Plane, which the model does not distinguish.
- The interleaving of React's asynchronous state updates is not modelled. Each handler runs on the state of one render, and the model applies its updates at once.
