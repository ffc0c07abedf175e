# Learner Hours: the session store, in Dafny

Learner Hours is a single-page form on which a learner logs study sessions
(a date, a start time and an end time). `app.js` validates the form, keeps
every session in one entry of the browser's local storage (the key
`"learner-hours"`), newest date first, lets the user edit a listed session
in place, and shows times in 12-hour form. This project models that logic
and proves what it promises:

- `wrappers.dfy` — `Option`.
- `string_order.dfy` (`StringOrder`) — JavaScript's `<` and `>` on strings,
  proved a strict total order.
- `decimal.dfy` (`Decimal`) — `parseInt` on digit strings, a number's decimal
  text, and the fact that on digit strings of one width the string order is
  the numeric order.
- `input_formats.dfy` (`InputFormats`) — the `"HH:MM"` text of a time input
  and the `"YYYY-MM-DD"` text of a date input; string order on them is the
  order of the day and the calendar order.
- `validation.dfy` (`Validation`) — `checkDateInvalid`, `checkTimesInvalid`.
- `sessions.dfy` (`Sessions`) — the session record, the newest-first order
  and the sort of `storeNewSession`.
- `store.dfy` (`Storage`) — class `SessionStore`: the local-storage entries,
  `getAllStoredSessions`, `storeNewSession`, `updateSession`.
- `form.dfy` (`SubmitHandler`) — class `NewSessionForm`: the edit index
  (`data-edit-index`), `editSession` and the submit handler's routing.
- `time_format.dfy` (`TimeFormat`) — `formatTime`, as written and corrected,
  with a 12-hour reader as its inverse.

The store and the form change state, so they are classes whose methods state
the whole new state in terms of the old one (`modifies`, `old`). The
validators, the read and `formatTime` are functions. The sort is a method
with loop invariants, proved to return a newest-first permutation of its
input.

Dates are compared as strings. The store's comparator
`new Date(b.date) - new Date(a.date)` orders ISO dates chronologically, and
`InputFormats.IsoDateOrderIsChronological` proves that string order on ISO
dates is the (year, month, day) order. So newest-first is
"no session is followed by one whose date string is greater".

Some descriptions of this application also list delete, search, a total
duration and a duplicate check on creation. The `app.js` modelled here has
none of them, and the model follows `app.js`.

## Model

| member | source | states |
|---|---|---|
| `StringOrder.LessTransitive` | app.js:72 | the string `<` behind `startTime > endTime` and the date order is transitive |
| `StringOrder.LessTotal` | app.js:72 | two different strings are always ordered one way or the other, so the order is total |
| `Decimal.Text` | app.js:211 | the decimal text of an hour is digits only, one digit exactly below 10, no leading zero |
| `Decimal.ValueOfText` | app.js:196 | `parseInt` of a number's decimal text gives the number back |
| `Decimal.LessIsNumeric` | app.js:72 | on digit strings of one width, string `<` holds exactly when the numeric value is smaller |
| `InputFormats.ClockOrderIsNumeric` | app.js:72 | on two "HH:MM" times, string `<` holds exactly when the first is fewer minutes after midnight |
| `InputFormats.IsoDateOrderIsChronological` | app.js:91-93 | on two ISO dates, string `<` holds exactly when the first is the earlier calendar date |
| `Validation.CheckDateInvalid` | app.js:57-67 | the date is invalid exactly when it is empty |
| `Validation.CheckTimesInvalid` | app.js:69-80 | the times are invalid exactly when the start is empty, the end is empty, or the start is greater than the end in string order |
| `Validation.TimesInvalidIffEndBeforeStart` | app.js:72 | on clock times, rejected exactly when the end is earlier in the day than the start; equal times pass |
| `Validation.AcceptedRangeHasDuration` | app.js:72 | an accepted pair of clock times never spans a negative number of minutes |
| `Sessions.InsertNewestFirst` | app.js:91-93 | inserting into a newest-first sequence keeps it newest first and adds exactly the one session |
| `Sessions.SortNewestFirst` | app.js:91-93 | the sort returns a newest-first permutation of its input |
| `Storage.SessionStore.GetAllStoredSessions` | app.js:99-108 | the empty sequence when the key is absent, otherwise exactly the stored sequence |
| `Storage.SessionStore.WriteSessions` | app.js:96 | writing the sequence changes only the store's key, and reading it back gives the same sequence |
| `Storage.SessionStore.StoreNewSession` | app.js:82-97 | the stored sequence becomes newest first, a permutation of the old one plus the new session (length one more, the session in it); no other key changes |
| `Storage.SessionStore.UpdateSession` | app.js:165-177 | same length, the new session at the index, every other position unchanged, no re-sort; no other key changes |
| `Storage.UpdateKeepsNewestFirstIff` | app.js:165-173 | after an update without re-sort the sequence is still newest first exactly when the new date fits between its neighbours' dates |
| `SubmitHandler.NewSessionForm.EditSession` | app.js:149-163 | edit mode is entered with the given index and the session at that index is returned to fill the inputs |
| `SubmitHandler.NewSessionForm.Submit` | app.js:14-55 | an invalid date or invalid times leave storage and edit mode unchanged; otherwise an edit index routes to an update and leaves edit mode, and no edit index routes to a sorted insertion; the edit index always names a stored session |
| `TimeFormat.FormatTimeCases` | app.js:189-214 | hours 13-23 become hour-12 "PM", hour 0 becomes "12 AM", hours 1-12 keep their value with "AM"; the minute text is copied |
| `TimeFormat.FormatTimeRoundTripIffNotNoonHour` | app.js:198-208 | the as-written text reads back to the original time exactly when the hour is not 12 |
| `TimeFormat.NoonRendersLikeMidnight` | app.js:200 | as written, 12:MM and 00:MM get the same text |
| `TimeFormat.FormatTimeCorrectedRoundTrip` | app.js:198-211 | with the afternoon starting at 12, the text always reads back to the original time |
| `TimeFormat.FormatTimeCorrectedInjective` | app.js:198-211 | with the afternoon starting at 12, different times always get different texts |

## Left out

- Rendering and other page work: element lookups, `renderPastSessions`,
  filling the inputs in `editSession`, `form.reset()`, `alert`,
  `event.preventDefault()` (app.js:2-7, 110-147). These are presentation.
- `formatDate` (app.js:179-187): its output depends on the host's locale.
- Local storage and `JSON.stringify`/`JSON.parse` are host calls. An entry is
  kept as the sequence it encodes, so serialisation is lossless by
  construction. Storage errors, quota limits and a stored text that does not
  parse are not modelled.
- `Date` parsing in the comparator is a host call. Dates are compared as
  strings, which is chronological on the ISO dates a date input yields. A
  date text that is not ISO would make the comparator return `NaN`, after
  which the host's sort order is not defined; that case is not modelled.
- `Sessions.SortNewestFirst`: promises a newest-first permutation only and
  leaves the order of sessions with equal dates open. The host's sort is
  stable, which keeps such sessions in insertion order; that is not stated.
- `Storage.SessionStore.UpdateSession`: requires the index to name a stored
  session. In the page the index always comes from the rendered list, and
  `NewSessionForm.Valid` proves it stays in range until the submit. Writing
  past the end of a JavaScript array would leave holes; that is not modelled.
- `SubmitHandler.NewSessionForm.EditSession`: requires the index to name a
  stored session, as the rendered edit buttons do.
- The edit index is a `nat`. In the page it is the attribute text of that
  number, which indexes the array the same way.
- `TimeFormat.FormatTime`: requires an "HH:MM" clock time, as a time input
  yields; the `NaN` and `undefined` texts produced for other input are not
  modelled.
- JavaScript compares strings by UTF-16 code unit, Dafny characters by code
  point. The two agree on the digits, dashes and colons of dates and times.
- Two tabs writing the same key concurrently (last writer wins) are not
  modelled; the model is single-threaded like one page.
- `sw.js` (the offline cache worker) wraps the browser's cache and fetch APIs
  and has no logic of its own to verify. `app.java` is an older copy of the
  submit wiring and defines nothing new.

## Findings

| source | as written | input that shows it | evidently intended | confidence | as-written member | corrected member |
|---|---|---|---|---|---|---|
| app.js:200 | `intHour > 12` marks only hours 13-23 as "PM" | "12:30" is shown as "12:30 AM", the same text as "00:30" | hours 12-23 are afternoon: "12:30 PM" | high; not executed | `TimeFormat.NoonRendersLikeMidnight` | `TimeFormat.FormatTimeCorrectedRoundTrip` |
