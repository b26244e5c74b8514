# Expo event directory: filtering, grouping and the December calendar

This project models the data logic of a single-page directory of expo
events. The page lists one fixed array of events. Each event has a title,
a venue, an optional location detail, one of nine types, a free-text date
and an ISO-like sort key (`dateSort`). The user narrows the list with a
search box, a type selector and a venue selector. The page then shows the
result in one of four views:

- grouped by venue;
- grouped by date, after a sort on `dateSort`;
- grouped by (translated) type;
- as a month calendar fixed on December 2025.

The Dafny model follows the program's own structure:

| file | models |
|---|---|
| `optional.dfy` | the `Option` datatype (absent optional fields, NaN) |
| `types.dfy` | `types.ts`: the nine event types and their string values, the event record, the view modes |
| `text.dfy` | the string built-ins the code relies on: `toLowerCase`, `includes`, `localeCompare`, `split`, `parseInt` |
| `sequences.dfy` | `Array.from(new Set(...))` (first-occurrence de-duplication) and subsequences |
| `sorting.dfy` | `[...xs].sort((a, b) => a.dateSort.localeCompare(b.dateSort))` as a stable sort |
| `filter.dfy` | `filteredEvents` in `App.tsx` |
| `grouping.dfy` | `uniqueVenues` and `groupedEvents` in `App.tsx` |
| `gregorian.dfy` | the two `Date` computations of the calendar (month length, weekday of the 1st) |
| `calendar.dfy` | `CalendarView.tsx`: day bins, day cells, the grid, and the detail dialog's open/closed state |

Each grouping result is an ordered association list of `Group(title,
events)`. Titles appear in the order the `forEach` loop first creates
them. Each group's events keep the order of the loop. The grouping loop
is an imperative method (`GroupInto`) proved equal to a declarative
definition (`Grouping`: one group per distinct title, holding that
title's events in input order). The day binning of the calendar is an
imperative method too (`EventsByDay`). Its result is tied to a per-day
filter (`EventsOn`). The calendar component is a class whose one field is
the open dialog (`selectedDay`). Its click, key and close handlers are
methods that update that field.

## Model

| member | source | states |
|---|---|---|
| ExpoTypes.EventType.Value | types.ts:1-11 | every type's string value is non-empty |
| ExpoTypes.ValuesDistinct | types.ts:1-11 | two types have the same string value exactly when they are the same type |
| Text.ContainsIff | App.tsx:35-37 | the left-to-right `includes` scan succeeds exactly when the needle occurs at some position of the haystack |
| Text.MissingCharNotContained | App.tsx:65 | a needle with a character absent from the text never occurs in it |
| Text.LexLeReflexive | App.tsx:60 | the `localeCompare` order (code-unit lexicographic) is reflexive |
| Text.LexLeTotal | App.tsx:60 | any two sort keys are comparable |
| Text.LexLeAntisymmetric | App.tsx:60 | two keys each at most the other are equal |
| Text.LexLeTransitive | App.tsx:60 | the order is transitive |
| Text.SplitOn | components/CalendarView.tsx:91 | `split` always yields at least one part |
| Text.SplitOnPieces | components/CalendarView.tsx:91 | the first part is a prefix of the input and no part contains the separator |
| Text.JoinSplitOn | components/CalendarView.tsx:91 | joining the parts of a split with the separator gives back the input |
| Text.SplitOnWithout | components/CalendarView.tsx:91 | a string without the separator splits into itself alone |
| Text.SplitOnFirst | components/CalendarView.tsx:91 | splitting `a + sep + b`, with no separator in `a`, yields `a` followed by the parts of `b` |
| Text.LeadingDigits | components/CalendarView.tsx:92-94 | `parseInt` reads the longest all-digit prefix |
| Text.ParseInt | components/CalendarView.tsx:92-94 | `parseInt` gives NaN exactly when the string is empty or does not start with a digit |
| Text.PaddedDigitsValue | components/CalendarView.tsx:92-94 | a zero-padded decimal field reads back as the number it encodes |
| Text.LeadingDigitsOf | components/CalendarView.tsx:92-94 | the digit prefix stops at the first non-digit after it |
| Text.ParseIntPadded | components/CalendarView.tsx:92-94 | `parseInt` of a zero-padded field, followed by anything that does not start with a digit, is that field's number |
| Sequences.DistinctSpec | App.tsx:27-28 | de-duplication through a `Set` has no duplicates, keeps exactly the input's elements, and keeps them in first-occurrence order |
| Sequences.KeepSpec | App.tsx:33 | `filter` yields a subsequence holding exactly the elements that pass the test |
| Sequences.KeepCount | App.tsx:33 | `filter` keeps every copy of an element that passes the test and no copy of one that fails |
| Sequences.SubsequenceExtend | App.tsx:33 | extending both sequences by one element keeps the subsequence relation; so does extending only the longer one |
| Grouping.UniqueVenuesSpec | App.tsx:26-29 | the venue list has no duplicates, holds exactly the venues of the data, and lists them in order of first appearance |
| EventFilter.FilterEventsSpec | App.tsx:32-45 | the filtered list is a subsequence of the input, and an event is in it exactly when it is in the input and matches search, type and venue |
| EventFilter.FilterEventsKeep | App.tsx:32-45 | the filter is `filter` by the conjunction of the three tests |
| EventFilter.FilterEventsCounts | App.tsx:32-45 | the filtered list holds each matching event as many times as the input does, and no non-matching event |
| EventFilter.FilterEventsIdempotent | App.tsx:32-45 | filtering the filtered list again with the same selections changes nothing |
| EventFilter.FilterEventsShowsAll | App.tsx:14-16 | the initial selections (empty search, type 'All', venue 'All') show every event |
| EventFilter.FilterEventsMonotone | App.tsx:39-41 | setting type and venue back to 'All' never hides an event the narrower query showed |
| EventFilter.FilterEventsNoMatch | App.tsx:34-37 | a search term found in no title, venue or location detail leaves the list empty |
| DateOrder.InsertByDateMultiset | App.tsx:60 | one insertion step adds exactly the inserted event |
| DateOrder.InsertByDateSorted | App.tsx:60 | inserting into a list sorted by `dateSort` keeps it sorted |
| DateOrder.InsertByDateStable | App.tsx:60 | an inserted event goes after every earlier event with the same key |
| DateOrder.SortByDateSorted | App.tsx:60 | the sorted copy is ascending by `dateSort` |
| DateOrder.SortByDatePermutation | App.tsx:60 | the sorted copy is a permutation of the filtered events |
| DateOrder.SortByDateStable | App.tsx:60 | events with equal `dateSort` keep their relative order |
| Grouping.TypeLabel | App.tsx:80 | the type title is never empty; it is the non-empty translation when there is one, the raw enum value otherwise |
| Grouping.DateGroupTitles | App.tsx:63-72 | in date mode every grouped event is a filtered event; it sits under the multi-day bucket when its display text holds the multi-session marker or a dash, and under its own display text otherwise |
| Grouping.DateLabelIdempotent | App.tsx:65-67 | a date title labels to itself (the bucket's own name has neither marker) |
| Grouping.KeysMembership | App.tsx:52 | a title is among the events' titles exactly when some event has it |
| Grouping.FindLabel | App.tsx:52 | the lookup `groups[title]` finds the group with that title, or reports that none exists |
| Grouping.MembersSpec | App.tsx:51-54 | one title's events are a subsequence of the input and are exactly the events with that title |
| Grouping.MembersOfNewTitle | App.tsx:52 | a title no event has so far has no members |
| Grouping.GroupingSnocNew | App.tsx:52-53 | an event with a new title opens a new group at the end, holding just that event |
| Grouping.GroupingSnocExisting | App.tsx:53 | an event with an existing title is appended to that group only |
| Grouping.GroupingSnoc | App.tsx:51-54 | grouping one more event is one push step applied to the grouping so far |
| Grouping.MembersKeep | App.tsx:51-54 | a title's events are the input filtered by the title test |
| Grouping.GroupInto | App.tsx:50-55 | the `forEach` grouping loop computes the declarative grouping of its input |
| Grouping.GroupingTitles | App.tsx:48-88 | group titles are distinct, are exactly the events' titles, appear in order of each title's first event, and there are no groups only when there are no events |
| Grouping.GroupingMembers | App.tsx:51-54 | each group is non-empty and holds exactly the events with its title, in input order |
| Grouping.FlattenPush | App.tsx:53 | pushing onto one group adds exactly that event to the grouped events |
| Grouping.GroupingPartition | App.tsx:48-88 | the groups together hold every input event exactly once |
| Grouping.MembersSorted | App.tsx:60-73 | grouping a sorted list gives sorted groups |
| Grouping.ComputeGroupedEvents | App.tsx:48-88 | venue and type modes group the filtered list; date mode groups its sorted copy; calendar mode yields no groups |
| Grouping.GroupedEventsPartition | App.tsx:48-88 | in the three list modes every filtered event appears in exactly one group, once |
| Grouping.GroupedEventsEmpty | App.tsx:48-88 | calendar mode yields no groups; a list mode yields none exactly when the filtered list is empty |
| Grouping.DateGroupsSorted | App.tsx:58-75 | in date mode every group is ascending by `dateSort` |
| Gregorian.DaysInMonth | components/CalendarView.tsx:75-77 | a month has 28 to 31 days; February has 29 exactly in leap years |
| Gregorian.FirstDayOfMonth | components/CalendarView.tsx:79-81 | the weekday of the 1st is between 0 (Sunday) and 6 |
| Gregorian.YearLength | components/CalendarView.tsx:75-81 | the day count gives a year 366 days exactly when it is a leap year |
| Gregorian.MonthLength | components/CalendarView.tsx:75-77 | day 0 of the next month is the last day of this month, so the month-length rule agrees with the day count |
| Gregorian.NextFirstDay | components/CalendarView.tsx:79-84 | each month starts on the weekday after the previous month's last day |
| Gregorian.December2025 | components/CalendarView.tsx:54 | the shown month has 31 days and starts on a Monday |
| Gregorian.KnownDates | components/CalendarView.tsx:79-81 | 1 January 1970 was a Thursday, 1 January 2000 a Saturday; February has 29 days in 2000 and 2024 and 28 in 1900 |
| Calendar.EventsOnSpec | components/CalendarView.tsx:87-102 | a day's events are a subsequence of the input and are exactly the events whose parsed date falls on that day of the shown month |
| Calendar.EventsOnKeep | components/CalendarView.tsx:89-99 | a day's bin is the input filtered by the bin test |
| Calendar.EventsOnCounts | components/CalendarView.tsx:89-99 | a bin holds each event dated on its day as many times as the input does, and no other event |
| Calendar.EventsOnSnoc | components/CalendarView.tsx:97-98 | one more event changes only the bin it parses to, by appending it |
| Calendar.DayRecordSkip | components/CalendarView.tsx:96 | an event outside the shown month leaves the record unchanged |
| Calendar.DayRecordPush | components/CalendarView.tsx:97-98 | pushing an event onto its day's bin keeps the record exact |
| Calendar.EventsByDay | components/CalendarView.tsx:87-102 | the binning loop makes a key exactly for each day some event falls on, and that key holds that day's events in input order |
| Calendar.IsoDateHasNoT | components/CalendarView.tsx:90-91 | an ISO date `YYYY-MM-DD` holds no `T` |
| Calendar.IsoDatePart | components/CalendarView.tsx:91 | cutting `YYYY-MM-DD[Thh:mm]` at the first `T` leaves the date |
| Calendar.IsoDateFields | components/CalendarView.tsx:91 | splitting `YYYY-MM-DD` at the dashes gives its three fields |
| Calendar.ParseIsoDate | components/CalendarView.tsx:90-94 | a date `YYYY-MM-DD`, with or without a time, parses to its year, month and day |
| Calendar.IsoDateBin | components/CalendarView.tsx:90-99 | such an event goes to the bin of its day exactly when its year and month are the shown ones, and to no bin otherwise |
| Calendar.UndatedInNoBin | components/CalendarView.tsx:92-96 | a sort key that does not start with a digit has a NaN year and goes to no bin |
| Calendar.DecemberTwelfthBin | components/CalendarView.tsx:90-98 | "2025-12-12" goes to bin 12 of December 2025 |
| Calendar.NovemberThirtiethBin | components/CalendarView.tsx:93-96 | "2025-11-30" goes to no bin of December 2025 |
| Calendar.DecemberTwelfthMorningBin | components/CalendarView.tsx:90-91 | "2025-12-12T08:00" goes to bin 12: the time is ignored |
| Calendar.MakeDayCell | components/CalendarView.tsx:126-132 | chips are the first min(n, 3) events; dots are the first min(n, 4); the overflow dot shows exactly when there are more than 4; the "+N more" badge shows exactly when there are more than 3; chips plus badge count every event |
| Calendar.BuildGrid | components/CalendarView.tsx:117-126 | the grid is `firstDay` blanks, then one cell per day 1 to `daysInMonth`, in order, each built from its bin (empty when absent) |
| Calendar.CalendarView.constructor | components/CalendarView.tsx:54-55 | the calendar starts with no dialog open |
| Calendar.CalendarView.Cells | components/CalendarView.tsx:83-126 | the grid has one blank per weekday before the 1st, then every day of December 2025 holding exactly that day's events |
| Calendar.CalendarView.HandleDayClick | components/CalendarView.tsx:104-114 | a click on a day with events opens the dialog on that date; its events are the day's events sorted by `dateSort`, as a permutation; a click on an empty day changes nothing |
| Calendar.CalendarView.DayKeyDown | components/CalendarView.tsx:142-147 | Enter or Space on a day with events acts as a click; any other key, or an empty day, changes nothing |
| Calendar.CalendarView.WindowKeyDown | components/CalendarView.tsx:59-73 | Escape closes an open dialog; nothing else changes the state |
| Calendar.CalendarView.Close | components/CalendarView.tsx:243-269 | a click on the backdrop (lines 243-247) or on the close button (lines 268-269) closes the dialog |

## Left out

- Rendering (JSX, CSS classes, ARIA attributes, icons, colour tables, month and weekday names, `EventCard`, `FilterBar`, the scroll-to-top button): this is presentation, not logic.
- The effect that sets the document language (App.tsx:21-23): a side effect on the browser document.
- The event data and the translation tables: they are inputs here (`events`, `labels`). The language selector only chooses which `labels` map is passed.
- Switching the view mode and editing the three selections: these are plain state setters. The model takes the current values as parameters.
- Registering and removing the window key listener: the listener exists only while a dialog is open. `WindowKeyDown` models what it does when it fires; its guard on the open dialog has the same effect.
- Text.Lower: `toLowerCase` is modelled as ASCII case folding only. Non-ASCII cased letters (full-width Latin such as "ＤＪ", accented Latin, Greek, Cyrillic) are lowered by the program but not by the model. A search that differs from a title, venue or location detail only in the case of such letters matches in the program and not in the model.
- Text.LexLe: `localeCompare` is modelled as code-unit lexicographic order. Locale collation is left out; the sort keys are ASCII dates, where the two orders agree.
- Text.ParseInt: `parseInt` is modelled for unsigned decimal digits. Leading whitespace, signs and radix prefixes are left out; split parts of a date carry none of these.
- Grouping.GroupInto: the groups object is a plain `{}` that inherits from `Object.prototype`. For a title equal to an inherited name ("constructor", "toString", "valueOf", "hasOwnProperty", "__proto__" and the like), `!groups[title]` is false, no group is created, and the following `push` throws a TypeError, so the grouping fails. The model treats such a title like any other and opens an ordinary group.
- Grouping.GroupInto: a JavaScript object lists integer-like keys first in numeric order. The model keeps the insertion order of all titles; a venue, date or type title that is a bare number would be placed differently.
- Calendar.EventsByDay: JavaScript record keys are strings. The model keys the bins by day number or NaN, which is the same partition of the events.
- Gregorian.FirstDayOfMonth: `Date` is modelled by proleptic Gregorian arithmetic. Its special case for years 0-99 and its time zone handling are left out; the shown month is December 2025.
- The calendar's "+N more" count is `n - 3` and may be negative. The model keeps that value and shows the badge only when it is positive, as the code does.
