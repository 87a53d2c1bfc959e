# Orbits Movers client: pickup picker, quote form, auth store and profile rules

This project models, in Dafny, the logic of a React Native booking client for a moving
service. The backend does sign-in, pricing and persistence. The client-side rules modelled here are:

- **Pickup date/time picker** (`components/ui/DateTimeModal.tsx`). The `Calendar` component
  keeps the displayed month and lists its days. Its previous/next buttons call `setMonth`.
  Before 16:00, days before today are disabled. From 16:00 on, today and tomorrow are disabled
  too. The selected day is highlighted. The `TimePicker` component enumerates 15-minute pickup
  slots up to 20:00. They start at 06:00 for any day but today. For today they start at
  now + 4 h, stepped up to the next quarter hour.
- **Quote form** (`components/modal/QuoteModal.tsx`). The phone number is stripped to its ASCII
  digits and must have exactly ten. Then the request goes to `onSubmit`, the field is cleared
  and the dialog closes.
- **Auth store** (`store/authStore.ts`). A two-field store (`user`, `isLoggedIn`) with `setUser`
  and `clearUser`.
- **Profile screen** (`app/profile/index.tsx`). The avatar initial, the display name with its
  fallbacks, and logout.

Files, one module each:

- `wrappers.dfy`: module `Wrappers`, the `Option` type used for `null` and absent values.
- `civil_time.dfy`: module `CivilTime`, JavaScript `Date` arithmetic on local calendar days.
  Months are numbered 0..11. Days and months out of range roll over as in the MakeDay rule of
  ECMA-262 (section 21.4.1.28). This gives `Next` (`setDate(getDate() + 1)`), `ShiftMonth`
  (`setMonth`) and `EndOfMonth` (`new Date(y, m + 1, 0)`). An instant is a date plus a minute
  of the day.
- `date_time_modal.dfy`: module `DateTimeModal`, the `Calendar` class and `TimePicker`.
- `quote_modal.dfy`: module `QuoteModal`, the digit filter, the submission and the `QuoteForm` class.
- `auth_store.dfy`: module `AuthStore`, the `Store` class.
- `profile_screen.dfy`: module `ProfileScreen`, the profile view and logout.

The clock is the parameter `now` everywhere. Callbacks are modelled as outputs: `onSubmit`,
the alerts and `onClose` become a recorded list of effects, and `router.replace` becomes a
returned route.

The model follows the code:

- Today's lower bound always steps up to the next quarter hour. At 10:00 the first slot is
  14:15.
- The bound is not clamped to 06:00.
- A day other than today has 57 slots, 06:00 to 20:00 inclusive.
- From 16:00 on, `tomorrow` keeps the clock time. So tomorrow is disabled as well as today, and
  the first selectable day is the day after tomorrow.
- Nothing in this component clears a selected time when the date changes. Here the selection is
  an input, and `TimeHighlight` shows that a time left over from another day highlights no chip.

## Model

| member | source | states |
|---|---|---|
| CivilTime.DaysInMonth | components/ui/DateTimeModal.tsx:33-37 | a month has 28 to 31 days; 29 exactly for February of a Gregorian leap year, 28 exactly for February otherwise |
| CivilTime.Normalize | components/ui/DateTimeModal.tsx:33-37 | the date that `new Date(y, m, d)` denotes for any month and day numbers is always a valid calendar date |
| CivilTime.NormalizeValid | components/ui/DateTimeModal.tsx:41-43 | `new Date(y, m, i)` for an existing day is that very day (used by the day-pushing loop) |
| CivilTime.Next | components/ui/DateTimeModal.tsx:49-50 | `setDate(getDate() + 1)` always gives a valid date, later than a valid original; within the month it is the next day, from the last day it is the 1st of the following month |
| CivilTime.EndOfMonth | components/ui/DateTimeModal.tsx:33-37 | day 0 of the following month is the last day of the displayed month (its day is the month's length), including across December |
| CivilTime.NextIsSuccessor | components/ui/DateTimeModal.tsx:49-50 | `setDate(getDate() + 1)` gives a valid later date, and a valid date is before it iff it is on or before the original day (no date lies in between) |
| CivilTime.DayAfterNext | components/ui/DateTimeModal.tsx:48-52 | a valid date is strictly after tomorrow iff it is on or after the day after tomorrow |
| CivilTime.ShiftMonth | components/ui/DateTimeModal.tsx:60-63 | `setMonth(getMonth() + delta)` always gives a valid date; a day every month has (1st to 28th) is kept and the month moves by exactly `delta` |
| CivilTime.ShiftMonthLands | components/ui/DateTimeModal.tsx:60-63 | `setMonth(getMonth() + delta)` moves exactly `delta` months and keeps the day when the target month has it; otherwise it lands one month further, on day (day - target length), at most the 3rd |
| DateTimeModal.MonthGrid | components/ui/DateTimeModal.tsx:39-44 | the grid has one entry per day of the month, entry i being the valid date day i + 1 of that year and month |
| DateTimeModal.MonthGridListsTheMonth | components/ui/DateTimeModal.tsx:39-44 | the month grid holds exactly the valid days of the month, days 1..N in strictly ascending order, N the month's length |
| DateTimeModal.Calendar.constructor | components/ui/DateTimeModal.tsx:31 | the calendar opens on today's date |
| DateTimeModal.Calendar.Dates | components/ui/DateTimeModal.tsx:33-44 | the day-pushing loop produces exactly the month grid of the displayed month: N valid dates with day i + 1 at index i |
| DateTimeModal.Calendar.PreviousMonth | components/ui/DateTimeModal.tsx:59-64 | the displayed date becomes `setMonth(getMonth() - 1)` of the old one, still valid |
| DateTimeModal.Calendar.NextMonth | components/ui/DateTimeModal.tsx:76-81 | the displayed date becomes `setMonth(getMonth() + 1)` of the old one, still valid |
| DateTimeModal.PreviousMonthCanStay | components/ui/DateTimeModal.tsx:60-63 | as written, "previous" from a day the previous month lacks leaves the displayed month unchanged |
| DateTimeModal.PreviousFromMarch31 | components/ui/DateTimeModal.tsx:60-63 | as written, "previous" from 2025-03-31 gives 2025-03-03 |
| DateTimeModal.NextFromJanuary31 | components/ui/DateTimeModal.tsx:76-80 | as written, "next" from 2025-01-31 gives 2025-03-03, skipping February |
| DateTimeModal.ShiftDisplayedMonth | components/ui/DateTimeModal.tsx:60-63 | corrected navigation: the result is the valid 1st of a month exactly `delta` months away |
| DateTimeModal.IsPast | components/ui/DateTimeModal.tsx:46-54 | at any time of day a day before today is disabled and a day after tomorrow is enabled |
| DateTimeModal.IsPastBeforeCutoff | components/ui/DateTimeModal.tsx:46-53 | before 16:00 a day is disabled iff it is strictly before today; today is enabled |
| DateTimeModal.IsPastAfterCutoff | components/ui/DateTimeModal.tsx:48-52 | from 16:00 on a valid day is disabled iff it is on or before tomorrow, because `tomorrow` keeps the clock time |
| DateTimeModal.FirstSelectableAfterCutoff | components/ui/DateTimeModal.tsx:48-52 | from 16:00 on a valid day is enabled iff it is on or after the day after tomorrow; today and tomorrow are disabled |
| DateTimeModal.DateSelected | components/ui/DateTimeModal.tsx:105 | with no selected date no chip is highlighted; a highlighted chip is the selected calendar day itself |
| DateTimeModal.DateHighlight | components/ui/DateTimeModal.tsx:103-105 | some date chip is highlighted iff the selected date is a valid day of the displayed month, and never two chips |
| DateTimeModal.TodayLowerBound | components/ui/DateTimeModal.tsx:156-161 | today's lower bound is a multiple of 15 minutes, strictly after now + 4 h and at most 15 minutes after it |
| DateTimeModal.MinTime | components/ui/DateTimeModal.tsx:155-164 | the loop's start is a multiple of 15 minutes: 06:00 for a day other than today, and within (now + 4 h, now + 4 h 15 min] for today |
| DateTimeModal.Slots | components/ui/DateTimeModal.tsx:166-171 | the slot list is non-empty iff the start is at or before 20:00; it begins at the start, its slots are on the day between the start and 20:00, 15 minutes apart, and the last is after 19:45 (the loop stops only past 20:00) |
| DateTimeModal.TimePicker | components/ui/DateTimeModal.tsx:144-171 | no selected date gives no list; otherwise the source's own steps (now + 4 h, minutes pushed by `15 - minutes % 15`, then the `current <= end` loop) give exactly the slots from the lower bound (today) or 06:00 (other days), every 15 minutes up to 20:00 |
| DateTimeModal.NonTodaySlots | components/ui/DateTimeModal.tsx:147-171 | for a day other than today the slots are 06:00, 06:15, ..., 20:00: exactly 57 |
| DateTimeModal.SlotsShape | components/ui/DateTimeModal.tsx:166-171 | from an aligned bound every slot is on the selected day, a whole multiple of 15 minutes, between the bound and 20:00, and consecutive slots are 15 minutes apart; an instant is a slot iff it meets all of these |
| DateTimeModal.TodayAtTen | components/ui/DateTimeModal.tsx:156-171 | at 10:00 today's slots start at 14:15 and number 24 |
| DateTimeModal.TodayEmptyIffCutoff | components/ui/DateTimeModal.tsx:156-171 | today's list is empty iff now is 16:00 or later |
| DateTimeModal.TodayStartsBeforeOpening | components/ui/DateTimeModal.tsx:156-171 | today's list begins before 06:00 iff now is before 01:45 (no clamp to opening time) |
| DateTimeModal.TodayOnlyClosing | components/ui/DateTimeModal.tsx:156-171 | today's list is 20:00 alone iff now is between 15:45 and 15:59 |
| DateTimeModal.TimeHighlight | components/ui/DateTimeModal.tsx:177-178 | at most one time chip is highlighted, and a selected time on another day highlights none |
| DateTimeModal.TimeSelected | components/ui/DateTimeModal.tsx:178 | with no selected time no chip is highlighted; a highlighted chip is exactly the selected instant |
| QuoteModal.DigitsOnly | components/modal/QuoteModal.tsx:49 | the stripped phone is never longer than the input and holds only ASCII digits |
| QuoteModal.DigitsOnlyAppend | components/modal/QuoteModal.tsx:49 | stripping a joined string joins the stripped parts, so the original order is kept |
| QuoteModal.DigitsOnlyChar | components/modal/QuoteModal.tsx:49 | a single character is kept iff it is an ASCII digit |
| QuoteModal.DigitsOnlyCounts | components/modal/QuoteModal.tsx:49 | every digit occurs as often in the result as in the input; every other character does not occur |
| QuoteModal.DigitsOnlyFixed | components/modal/QuoteModal.tsx:49 | stripping leaves a string unchanged iff it is all ASCII digits |
| QuoteModal.DigitsOnlyIdempotent | components/modal/QuoteModal.tsx:49 | stripping twice equals stripping once |
| QuoteModal.DigitsOnlyFullLength | components/modal/QuoteModal.tsx:49-51 | stripping removes nothing iff the string is all digits |
| QuoteModal.Submission | components/modal/QuoteModal.tsx:47-65 | a request exists iff the stripped phone has exactly 10 characters; its phone is that 10-digit string and pickup, dropoff, date, time, name and email are the props unchanged, with no check on them |
| QuoteModal.AcceptedIffTenDigits | components/modal/QuoteModal.tsx:49-54 | with the 10-character input limit, a phone is accepted iff it is exactly ten ASCII digits |
| QuoteModal.QuoteForm.constructor | components/modal/QuoteModal.tsx:45 | the phone field starts empty and nothing has been sent |
| QuoteModal.QuoteForm.ChangeText | components/modal/QuoteModal.tsx:92-99 | typing replaces the phone text and sends nothing; the field never exceeds 10 characters |
| QuoteModal.QuoteForm.HandleSubmit | components/modal/QuoteModal.tsx:47-72 | a refused phone only raises the alert and leaves the field as it was; an accepted one is sent once to `onSubmit`, echoed, then the field is reset to "", then `onClose` is called, in that order |
| AuthStore.Store.constructor | store/authStore.ts:16-18 | initially no user and not logged in, so the flag agrees with the user |
| AuthStore.Store.SetUser | store/authStore.ts:19 | from any state, the user becomes the given one and the flag true; the flag agrees with the user afterwards |
| AuthStore.Store.ClearUser | store/authStore.ts:20 | from any state, no user and not logged in; on a signed-out store nothing changes (idempotent) |
| ProfileScreen.ToUpperAscii | app/profile/index.tsx:42 | upper-casing yields no lower-case ASCII letter, lowers a-z by 32 and leaves every other character alone |
| ProfileScreen.Truthy | app/profile/index.tsx:42 | a missing string and the empty string are falsy; a truthy string is non-empty |
| ProfileScreen.AvatarInitial | app/profile/index.tsx:42 | the initial is one non-lower-case character: the name's upper-cased first character, or "U" for a missing or empty name |
| ProfileScreen.AvatarInitialIgnoresCase | app/profile/index.tsx:42 | names whose first letters differ only in ASCII case get the same initial |
| ProfileScreen.DisplayName | app/profile/index.tsx:49 | the name line is never empty: the name when non-empty, else "Unnamed User" |
| ProfileScreen.Render | app/profile/index.tsx:20-51 | with no user, only the not-logged-in view; otherwise the picture iff its URL is non-empty, else the initial, plus the display name and email |
| ProfileScreen.HandleLogout | app/profile/index.tsx:15-18 | logout clears the store (no user, not logged in), the screen then shows not-logged-in, and the route is "/home" |

## Findings

| source | as written | input that shows it | evidently intended | confidence | as-written member | corrected member |
|---|---|---|---|---|---|---|
| components/ui/DateTimeModal.tsx:60-63 | month navigation calls `setMonth(getMonth() ± 1)` on the displayed date, which keeps its day of the month and rolls a missing day into the next month | displayed date 2025-03-31, "previous": Feb 31 rolls over to 2025-03-03, so March is shown again; from 2025-01-31, "next" gives 2025-03-03, skipping February | each press shows the month exactly one before or after | high (not executed) | DateTimeModal.PreviousMonthCanStay | DateTimeModal.ShiftDisplayedMonth |

The `Calendar` class keeps the as-written navigation, because that is what the component does.
`ShiftDisplayedMonth` is the corrected rule: go to the 1st of the target month. Only the year
and month of the displayed date reach the grid, so this changes nothing else.

## Left out

- Time zones, daylight saving and the millisecond epoch. A day is 1440 local minutes.
- Seconds and milliseconds of `now` are dropped. `setMinutes(.., 0, 0)` clears them, and the
  16:00 comparison with `tomorrow` does not depend on them.
- The component reads the clock several times (lines 47, 49, 152 and 157). The model uses one
  `now`, so it ignores reads that straddle midnight or 16:00.
- `new Date(y, m, d)` maps years 0 to 99 to 1900 to 1999. This is not modelled; the calendar
  only shows years near today.
- Rendering, styling, layout, and chip labels from `toLocaleString`/`toLocaleTimeString`.
  These are UI and locale formatting.
- The Android back-button listener (`components/ui/DateTimeModal.tsx:212-218`). It is platform
  event plumbing; it is added on every render and never removed.
- What `onSelectDate`/`onSelectTime` do with a pick. The owning screen is not part of this
  model, and nothing in this component clears a stale time when the date changes.
- The alert texts and the `JSON.stringify` echo in the quote form appear only as effect markers.
- QuoteModal.QuoteForm.ChangeText: requires at most 10 characters, the `maxLength` of the text
  input. How the platform truncates longer pasted text is not modelled.
- A missing and a `null` name, email or picture are both `None`.
- ProfileScreen.ToUpperAscii: upper-cases ASCII letters only. Unicode case mapping is not
  modelled: multi-character results such as "ß" to "SS", and `charAt` splitting a surrogate pair.
- ProfileScreen.AvatarInitial: inherits the ASCII-only upper-casing of `ToUpperAscii`.
- Google Sign-In and the backend `fetch` calls (`app/home.tsx:55-110`, `app/sign-in.tsx:31-61`).
  These are network and foreign-library calls. `app/home.tsx:24` and `:87` call a `setAuth`
  that the store does not define.
- Debounced place autocomplete (`components/ui/LocationInput.tsx`). It runs on timers,
  `fetch` and React effects.
- The privacy, conditions and exit-confirmation modals, the input field and the landing
  screen. They are static content and navigation.
- The auth context, which only forwards to the store, and the type declarations.
