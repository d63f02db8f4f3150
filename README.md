# EvenTree core, modelled in Dafny

EvenTree is a small React application for browsing Korean public cultural
events and keeping a personal calendar of them. This project models the
parts of it that hold logic of their own and proves properties of them:

- **Event detail page** (`src/pages/EventDetail.tsx`):
  - the CSV header transform (`header.replace(/_\d+$/, "").trim()`);
  - the field mapping that reads each record field from the first non-empty
    of several alternative column names;
  - the keyword categoriser and the category thumbnail;
  - `formatDate` and `isUpcoming` for `YYYYMMDD` dates;
  - the `YYYYMMDD` to `YYYY-MM-DD` rewrite used for the date picker's
    `min` and `max`.
- **Home page** (`src/pages/Home.tsx`): the category toggle buttons, the
  category filter over the built-in event cards, and the initial selection.
- **Personal calendar** (`src/pages/MyCalendar.tsx`):
  - the page state (`events`, `selectedEvent`, `editingId`, `editDate`,
    `editTime`) as a class whose methods are the select, edit-start,
    edit-save, edit-cancel, delete and close-dialog handlers and the
    editor's date and time inputs;
  - the category colour lookup;
  - the two-hour calendar blocks.
- **Saving a calendar entry** (`src/hooks/useAddEvent.ts`): the duplicate
  check on (title, date), the insert into the remote store, and the hook's
  `loading` and `error` state. The remote store is a class holding a
  sequence of entries and the next id to hand out.

Files:

| file | module | contents |
|---|---|---|
| `wrappers.dfy` | `Wrappers` | `Option` and `Result` |
| `sequences.dfy` | `Sequences` | order-preserving subsequence predicate |
| `text.dfy` | `Text` | the JavaScript string operations used: digit stripping, `parseInt` of digits, `trim`, `toLowerCase`, `includes` |
| `event_header.dfy` | `EventHeader` | header transform |
| `event_fields.dfy` | `EventFields` | alias resolution and the alias lists |
| `event_category.dfy` | `EventCategory` | keyword table, categoriser (a function and the loop that computes it), thumbnails |
| `event_dates.dfy` | `EventDates` | `formatDate`, ECMA-262 day arithmetic, `isUpcoming`, date-input rewrite |
| `event_detail.dfy` | `EventDetail` | the detail record built from one row |
| `home.dfy` | `Home` | category toggle and filter, the page state class |
| `my_calendar.dfy` | `MyCalendar` | colours, calendar blocks, the page state class and its handlers |
| `add_event.dfy` | `AddEvent` | duplicate check, store, `useAddEvent`'s `add` |

Behaviours of the code that are easy to misread:

- `isUpcoming` compares local midnight of the event day with the current
  instant using `>=`. It does not compare whole days. On the event day
  itself the event counts as upcoming only at the exact instant of midnight
  (`EventDates.SameDayUpcomingOnlyAtMidnight`).
- There is no calendar validation of the eight digits. `new Date` rolls
  month 13 over into the next year (`EventDates.MonthThirteenRollsOver`). It
  reads the years `0000`–`0099` as 1900–1999
  (`EventDates.TwoDigitYearIn1900s`).
- The home page starts with 클래식 and 대중음악 selected. An empty
  selection shows every card. The search text is stored but plays no part
  in the filter (`Home.HomePage.SetSearchQuery`).

## Model

| member | source | states |
|---|---|---|
| Text.DigitsOf | src/pages/EventDetail.tsx:146 | `replace(/[^0-9]/g, "")` keeps only ASCII digits, is no longer than its input, and leaves an all-digit string alone |
| Text.DecimalValue | src/pages/EventDetail.tsx:148-150 | `parseInt` of an all-digit string is below 10 to the power of its length |
| Text.Trim | src/pages/EventDetail.tsx:62 | `trim` cuts a whitespace-only prefix and suffix (the JavaScript whitespace and line-terminator set) and leaves no whitespace at either end |
| Text.TrimOfTrimmed | src/pages/EventDetail.tsx:62 | a string without surrounding whitespace is its own trim |
| Text.ToLower | src/pages/EventDetail.tsx:98 | lower-casing keeps the length |
| Text.Contains | src/pages/EventDetail.tsx:102 | `includes` is true exactly when the key occurs at some index |
| Text.ContainsLowered | src/pages/EventDetail.tsx:98-102 | an occurrence in the content is still an occurrence after both sides are lower-cased |
| EventHeader.TrailingDigitCount | src/pages/EventDetail.tsx:62 | the length of the maximal run of digits that ends the string |
| EventHeader.StripNumberSuffix | src/pages/EventDetail.tsx:62 | `/_\d+$/` removed: cut at the `_` followed only by one or more digits up to the end, unchanged when there is none |
| EventHeader.TransformHeader | src/pages/EventDetail.tsx:61-62 | the header is the trim of the part before a trailing `_<digits>`, or the trim of the whole header; no surrounding whitespace remains |
| EventHeader.NonDigitEndBlocksStrip | src/pages/EventDetail.tsx:62 | a header not ending in a digit loses no suffix |
| EventHeader.SuffixedColumnNormalises | src/pages/EventDetail.tsx:61-62 | a name without surrounding whitespace, followed by `_` and one or more digits, maps back to the name |
| EventHeader.NumberedTitleNormalises | src/pages/EventDetail.tsx:61-62 | `title_2` becomes `title` |
| EventHeader.StripsOnlyOneSuffix | src/pages/EventDetail.tsx:61-62 | `a_1_2` becomes `a_1`: only one suffix goes |
| EventHeader.FirstSuffixNormalises | src/pages/EventDetail.tsx:61-62 | `a_1` becomes `a` |
| EventHeader.TransformHeaderNotIdempotent | src/pages/EventDetail.tsx:61-62 | transforming `a_1_2` twice differs from transforming it once |
| EventHeader.TrailingSpaceBlocksStrip | src/pages/EventDetail.tsx:61-62 | `title_2 ` becomes `title_2`: the strip runs before the trim |
| EventFields.Cell | src/pages/EventDetail.tsx:114-128 | `item[key]` as the alias chain reads it: falsy exactly when the column is missing or empty, otherwise the column's text |
| EventFields.FirstNonEmpty | src/pages/EventDetail.tsx:114-128 | the first column of the list whose cell is non-empty, the fallback when none is |
| EventFields.NonEmptyFallbackGivesNonEmpty | src/pages/EventDetail.tsx:128 | with a non-empty fallback the field is never empty |
| EventFields.OnlyAliasesMatter | src/pages/EventDetail.tsx:114-128 | columns outside a field's list do not affect it |
| EventFields.TitlePrefersEventName | src/pages/EventDetail.tsx:114 | the title is 행사명 when filled in, else 공연명 |
| EventFields.ContentOrder | src/pages/EventDetail.tsx:68-69 | the content is 행사내용, else 내용, else 설명 |
| EventFields.FeeDefaultsToFree | src/pages/EventDetail.tsx:128 | with both fee columns empty the fee is 무료 |
| EventCategory.AnyHit | src/pages/EventDetail.tsx:101-106 | some keyword of the list, lower-cased, occurs in the lowered content |
| EventCategory.MatchFrom | src/pages/EventDetail.tsx:97-108 | the result is 기타 or the name of a table entry at or after the start index |
| EventCategory.MatchFromEtcIff | src/pages/EventDetail.tsx:97-108 | 기타 comes out exactly when no non-기타 entry from the start index has a hit |
| EventCategory.MatchFromFirstHit | src/pages/EventDetail.tsx:99-108 | the first non-기타 entry with a hit wins |
| EventCategory.Categorize | src/pages/EventDetail.tsx:97-108 | the nested loop with `continue` and `break` computes exactly the table-order first match |
| EventCategory.CategoryOf | src/pages/EventDetail.tsx:70-108 | every content gets one of the seven category names, and a name other than 기타 only through a hit on one of that category's keywords |
| EventCategory.EtcIffNoKeyword | src/pages/EventDetail.tsx:70-108 | 기타 exactly when no keyword of the six real categories occurs in the lowered content |
| EventCategory.FirstHitWins | src/pages/EventDetail.tsx:99-108 | a category with a hit and no earlier category with one is the result, whatever later categories match |
| EventCategory.PopularMusicKeywordWins | src/pages/EventDetail.tsx:71-81 | content containing any 대중음악 keyword is 대중음악 |
| EventCategory.JazzConcertIsPopularMusic | src/pages/EventDetail.tsx:70-108 | `2024 재즈 콘서트` is 대중음악 |
| EventCategory.RecordFilmIsPopularMusic | src/pages/EventDetail.tsx:70-108 | `기록 영화` is 대중음악 because 록 occurs in 기록, although the 영화 keyword list also has a hit in it |
| EventCategory.ImageName | src/pages/EventDetail.tsx:110 | the mapped picture for a known category, `etc` otherwise |
| EventCategory.Thumbnail | src/pages/EventDetail.tsx:120 | the path is `/category/`, the picture's name, then `.svg`, so the name can be read back from it |
| EventCategory.ImagesAreDistinct | src/pages/EventDetail.tsx:25-33 | different categories get different thumbnails |
| EventCategory.NoHitGivesEtcThumbnail | src/pages/EventDetail.tsx:97-120 | content with no keyword hit gets `/category/etc.svg` |
| EventDates.FormatDate | src/pages/EventDetail.tsx:157-167 | `""` for `""`; eight digits become `YYYY.MM.DD` with the same digits in place; anything else is returned unchanged |
| EventDates.DottedDate | src/pages/EventDetail.tsx:160-165 | the dotted form has length 10, dots at 4 and 7, and the eight digits in order |
| EventDates.FormatDateIdempotent | src/pages/EventDetail.tsx:157-167 | formatting a formatted date changes nothing |
| EventDates.DayFromYearStep | src/pages/EventDetail.tsx:151 | 1 January of the next year is a year's length of days later |
| EventDates.NextMonthFollowsLastDay | src/pages/EventDetail.tsx:151 | the first of the next month is the day after the last of this month, across year ends |
| EventDates.StartInstant | src/pages/EventDetail.tsx:148-151 | `new Date(year, month, day)` is a local midnight: shifted by the offset it is a whole number of days |
| EventDates.IsUpcoming | src/pages/EventDetail.tsx:144-155 | false for `""` and when the digits are not eight; otherwise true exactly when local midnight of the date is at or after now |
| EventDates.SameDayUpcomingOnlyAtMidnight | src/pages/EventDetail.tsx:151-152 | during the event day the event is upcoming only at midnight |
| EventDates.TwoDigitValue | src/pages/EventDetail.tsx:149-150 | `parseInt` of two digits |
| EventDates.FourDigitValue | src/pages/EventDetail.tsx:148 | `parseInt` of four digits |
| EventDates.StartInstantOfDigits | src/pages/EventDetail.tsx:148-151 | at offset zero, the instant of eight digits is the day number of their year, month less one, and day, times a day's length |
| EventDates.OffsetShifts | src/pages/EventDetail.tsx:151 | at any offset the instant is the offset-zero instant moved back by the offset |
| EventDates.SameInstantAtAnyOffset | src/pages/EventDetail.tsx:151 | dates that start together at offset zero start together at every offset |
| EventDates.SameDaySameInstant | src/pages/EventDetail.tsx:148-151 | at offset zero, digits naming the same day number give the same instant |
| EventDates.TwoDigitYearIn1900s | src/pages/EventDetail.tsx:148-151 | at every offset, `00991231` starts when `19991231` does |
| EventDates.MonthThirteenRollsOver | src/pages/EventDetail.tsx:147-151 | at every offset, `20241301` starts when `20250101` does |
| EventDates.FirstEightDigits | src/pages/EventDetail.tsx:310-317 | the leftmost index of a run of eight digits at or after the start, or none |
| EventDates.DateInputValue | src/pages/EventDetail.tsx:310-317 | dashes go after the 4th and 6th digit of the leftmost eight-digit run; with no such run the text is unchanged |
| EventDates.DateInputKeepsDigits | src/pages/EventDetail.tsx:310-317 | the rewrite keeps the digits |
| EventDates.DateInputAgreesWithFormatDate | src/pages/EventDetail.tsx:310-317 | when the text holds exactly eight digits, the picker bound and the displayed date show the same day |
| EventDates.CompactDateInput | src/pages/EventDetail.tsx:310-313 | `YYYYMMDD` becomes `YYYY-MM-DD` |
| EventDetail.BuildEvent | src/pages/EventDetail.tsx:112-128 | every field is its alias resolution; `seq` is the route id or `"0"`; the category is the categoriser's and one of the seven; the thumbnail is its picture; the fee is never empty |
| Home.Without | src/pages/Home.tsx:45 | `filter((c) => c !== category)`: the same elements in order, minus every copy of the category |
| Home.Toggled | src/pages/Home.tsx:43-47 | the category is selected afterwards exactly when it was not before; other categories are unchanged; a new one goes at the end |
| Home.WithoutAppended | src/pages/Home.tsx:45 | removing a just-appended category gives back the list |
| Home.ToggleTwiceRestores | src/pages/Home.tsx:43-47 | two clicks on an unselected category restore the selection |
| Home.ToggleKeepsNoDuplicates | src/pages/Home.tsx:43-47 | a toggle keeps the selection free of duplicates |
| Home.TogglesKeepNoDuplicates | src/pages/Home.tsx:43-47 | so does any sequence of clicks |
| Home.InitialSelectionHasNoDuplicates | src/pages/Home.tsx:40 | the initial selection has no duplicates |
| Home.FilterEvents | src/pages/Home.tsx:49-51 | an empty selection keeps every card; otherwise exactly the cards of a selected category, in order |
| Home.FilterIdempotent | src/pages/Home.tsx:49-51 | filtering twice is filtering once |
| Home.HomePage.constructor | src/pages/Home.tsx:40-41 | the page starts with 클래식 and 대중음악 and an empty search |
| Home.HomePage.FilteredEvents | src/pages/Home.tsx:49-51 | the built-in cards of the selected categories, every card when none is selected, in their order |
| Home.HomePage.ToggleCategory | src/pages/Home.tsx:43-47 | the selection becomes its toggle and stays free of duplicates |
| Home.HomePage.SetSearchQuery | src/pages/Home.tsx:41 | setting the search text leaves the filtered list unchanged |
| MyCalendar.ColorOf | src/pages/MyCalendar.tsx:104-105 | a known category's colour, the 기타 grey otherwise |
| MyCalendar.ColorsCoverCategories | src/pages/MyCalendar.tsx:86-94 | the colour table's keys are exactly the seven categories of the detail page |
| MyCalendar.CalendarEntries | src/pages/MyCalendar.tsx:73-83 | one block per entry, in order, starting at the entry's date and ending two hours later |
| MyCalendar.WithEdit | src/pages/MyCalendar.tsx:143-149 | entries with the edited id get the new date and time; nothing else changes |
| MyCalendar.WithoutId | src/pages/MyCalendar.tsx:166 | entries with the id are gone; the others stay, in order |
| MyCalendar.DeleteAfterEdit | src/pages/MyCalendar.tsx:143-166 | deleting an edited entry leaves what deleting it unedited leaves |
| MyCalendar.CalendarPage.constructor | src/pages/MyCalendar.tsx:36-43 | loaded entries, nothing selected, the editor empty |
| MyCalendar.CalendarPage.SelectEvent | src/pages/MyCalendar.tsx:97-99 | the clicked entry is selected; nothing else changes |
| MyCalendar.CalendarPage.EditStart | src/pages/MyCalendar.tsx:132-137 | with an entry selected the editor takes its id, date and time (`""` when absent); with none nothing changes |
| MyCalendar.CalendarPage.EditSave | src/pages/MyCalendar.tsx:140-153 | with no id or an empty one nothing changes; otherwise the list gets the edit, and the editing id and selection are cleared while the editor's date and time stay |
| MyCalendar.CalendarPage.SetEditDate | src/pages/MyCalendar.tsx:349 | the date input sets the editor's date; nothing else changes |
| MyCalendar.CalendarPage.SetEditTime | src/pages/MyCalendar.tsx:360 | the time input sets the editor's time; nothing else changes |
| MyCalendar.CalendarPage.EditCancel | src/pages/MyCalendar.tsx:156-160 | the editor is cleared; list and selection stay |
| MyCalendar.CalendarPage.Delete | src/pages/MyCalendar.tsx:163-169 | with an entry selected its id leaves the list and the selection is cleared; the editor stays |
| MyCalendar.CalendarPage.CloseModal | src/pages/MyCalendar.tsx:172-177 | selection and editor are cleared; the list stays |
| AddEvent.FindDuplicate | src/hooks/useAddEvent.ts:12-14 | none exactly when no entry has both the title and the date; otherwise the first stored entry with both |
| AddEvent.PartialMatchIsNoDuplicate | src/hooks/useAddEvent.ts:12-14 | entries that share only the title or only the date are not duplicates |
| AddEvent.AppendUnmatchedKeepsNoDuplicatePairs | src/hooks/useAddEvent.ts:11-21 | appending an entry the check let through keeps the store free of duplicate pairs |
| AddEvent.EventStore.GetEvents | src/services/eventService.ts:49-70 | every stored entry, or the store error |
| AddEvent.EventStore.Insert | src/services/eventService.ts:28-43 | one new entry with a fresh id at the end, or the store error and no write |
| AddEvent.AddEventHook.constructor | src/hooks/useAddEvent.ts:5-6 | not loading, no error |
| AddEvent.AddEventHook.Add | src/hooks/useAddEvent.ts:8-28 | read, duplicate or insert failure: failure recorded in `error`, store unchanged; otherwise the insert's id, exactly one new entry with the title and date, and the next id one higher; `loading` false at the end; a duplicate-free store stays duplicate-free |
| AddEvent.SaveTwice | src/hooks/useAddEvent.ts:8-28 | saving the same title and date twice: the first succeeds, the second fails with the duplicate error |

## Left out

- Fetching `/events.csv`, decoding it with `TextDecoder` (EUC-KR, then UTF-8), and Papa Parse's CSV tokenising: browser and library calls. Papa's handling of repeated header names, where a later column overwrites an earlier one of the same name, is not modelled either. A parsed row is a map from column name to text.
- The `parseInt(id)` row lookup: JavaScript number parsing of a route parameter. `BuildEvent` takes the row and the raw id.
- The colour and picture lookups are modelled as maps. In JavaScript, looking up an inherited property name such as `constructor` in `categoryColors` or `categoryImageMap` finds a truthy value, so the `||` fallback would not apply. MyCalendar.ColorOf and EventCategory.ImageName state the fallback for every other name. The pages only ever pass one of the seven category names or a missing category.
- Text.ToLower: lowers ASCII letters only. JavaScript's full Unicode case mapping is not modelled. The keywords are Hangul, which has no case.
- EventDates.IsUpcoming: the current instant and the local time-zone offset are parameters, and the offset is constant over time (no daylight-saving changes). Dates before year 0 or past JavaScript's time-value range are not distinguished.
- `new Date(event.date)` in the calendar parses an arbitrary date string, which depends on the engine and the time zone. `CalendarEntries` takes that parse as a function parameter.
- The calendar page's own `formatDate`, its weekday names, the calendar widget's localiser and formats, i18n, toasts and all rendering: presentation only.
- The remote store's ordering by date in `getEvents` is not modelled. Entries come back in insertion order. Whether a duplicate exists does not depend on the order.
- Document ids are natural numbers handed out in order, standing in for the store's random string ids. `createdAt` is the store's clock reading, passed in as a number.
- AddEvent.AddEventHook.Add: that `loading` is true while the call is awaiting the store is not stated. The model is one sequential call with no observer in between, so only `loading` being false afterwards is stated.
- Concurrency: two overlapping `add` calls can both pass the duplicate check before either inserts. Only one sequential call is modelled.
- The update and delete hooks and `useEvents`: thin wrappers over the store with no logic of their own.
- Free-text search, date sorting and pagination: none of the modelled source files implements them. The home page's search text is stored but unused.
