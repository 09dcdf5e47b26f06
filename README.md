# Free training slots of a day — a Dafny model

This project models how the booking site works out which training slots are
still free on a given day. `GoogleCalendarManager.get_available_slots` in
`bt2/google_calender.py` does this work:

* It opens a working window from 08:00 to 20:00 on the requested date.
* It asks the calendar for that day's events. If the request raises, the
  result is an empty list.
* It walks candidate slots of `duration_minutes` (60 by default) from 08:00
  for as long as the candidate's *start* is before 20:00.
* For each candidate it scans the events. All-day events (no `dateTime`
  under `start`) are skipped. The scan stops at the first timed event that
  overlaps the candidate under the half-open test
  `max(start, event_start) < min(end, event_end)`.
* Each candidate that no event blocks is appended as a pair of its local
  start time and its `"HH:MM"` text.

The Dafny files:

* `wrappers.dfy` (`Wrappers`): `Option`. A calendar fetch that raised is
  `None`.
* `clock.dfy` (`Clock`): instants are whole minutes in one frame, and day
  `day` begins at minute `day * 1440`. It defines the local time of day of
  an instant, the zero-padded `"HH:MM"` rendering and a reader for it.
* `busy.dfy` (`Busy`): calendar entries (`Timed(start, end)` or `AllDay`),
  the half-open overlap test, "free of every entry", and the timed entries
  of a list.
* `availability.dfy` (`Availability`): the specification function
  `AvailableSlots`, which recurses once per loop iteration. It also holds the
  method `GetAvailableSlots`, whose outer `while` loop and inner loop (with
  `continue` for all-day entries and `break` on the first overlap) follow the
  source. The method is proved to return exactly `AvailableSlots`.
* `slot_properties.dfy` (`SlotProperties`): what the result is. It covers
  where the slots start, how many there are, their order, exactly which
  candidates survive, all-day entries, a covering entry, a failed fetch, and
  worked days.

The method is a plain module-level method, not a class member. The manager
object's only state is the API client, which the computation reads only to
fetch events, and the fetch is an input here.

Three consequences of the code that the model keeps:

* **The loop tests only the slot's start.** A slot is generated while its
  start is before 20:00, wherever it ends. When the duration does not divide
  720 minutes, the last slot therefore runs past 20:00. With 50-minute slots
  the last one is 19:40–20:30 (`LastSlotMayRunPastClosing`).
* **Up to ceil(720 / d) slots.** That is the most a day can return, and that
  many are returned when no timed entry blocks
  (`NoTimedEntriesGiveEveryCandidate`).
* **Fixed window, unchecked duration.** The window is always 08:00–20:00, and
  nothing validates `duration_minutes`. A non-positive duration makes the
  loop run forever, so `d > 0` is a precondition. The duration defaults to
  60 minutes, as `DefaultDuration` in the method's signature.

## Model

| member | source | states |
|---|---|---|
| `Availability.StartOfDay` | bt2/google_calender.py:75 | the instant at which the working window opens: 08:00 on the requested day (used by `FreeStartShown`, `SlotsOnGridInWindow`) |
| `Availability.EndOfDay` | bt2/google_calender.py:76 | the instant at which the window closes: 20:00 on the same day, 720 minutes after the opening (used by `SlotCountBound`, `LastSlotMayRunPastClosing`) |
| `Busy.Blocks` | bt2/google_calender.py:98-108 | whether one calendar entry blocks a slot: an all-day entry never does, a timed entry does iff it overlaps the slot (`Overlaps`, `AllDayEntriesNeverBlock`) |
| `Busy.Free` | bt2/google_calender.py:98-108 | whether the inner loop leaves `is_available` true: no entry of the list blocks the slot (`FreeIgnoresAllDay`, `SlotReturnedIffFree`) |
| `Clock.LocalTime` | bt2/google_calender.py:111 | the local time of an instant has hour < 24 and minute < 60, and its minutes since midnight are the instant's position within its day |
| `Clock.LocalTimeOfDay` | bt2/google_calender.py:111 | an instant m minutes after a day's midnight (0 <= m < 1440) shows m on the clock |
| `Clock.Pad2` | bt2/google_calender.py:112 | a number below 100 is written as exactly two decimal digits (leading zero below ten) whose value is that number |
| `Clock.Format` | bt2/google_calender.py:112 | the `%H:%M` text is five characters with `:` in the middle |
| `Clock.Parse` | bt2/google_calender.py:112 | reading `"HH:MM"` text yields, when it succeeds, two-digit hour and minute fields |
| `Clock.ParseFormat` | bt2/google_calender.py:112 | reading the rendered `"HH:MM"` text of a time gives that time back |
| `Clock.FormatParse` | bt2/google_calender.py:112 | every text that reads as a time is exactly that time's rendering, so the rendering is injective |
| `Busy.Overlaps` | bt2/google_calender.py:106 | `max(s, bs) < min(e, be)` holds iff both intervals are non-empty and each starts before the other ends; touching ends do not overlap |
| `Busy.TimedOnly` | bt2/google_calender.py:99-100 | the entries kept are all timed, all come from the input, and every timed input entry is kept |
| `Busy.FreeIgnoresAllDay` | bt2/google_calender.py:98-100 | a slot is free of a list of entries iff it is free of the list's timed entries |
| `Availability.Candidates` | bt2/google_calender.py:92-114 | the starts the loop visits (lines 92-96 and the step at 114), from the opening in steps of the duration while before the end (`CandidatesCount`, `CandidatesShape`) |
| `Availability.FreeStartsFrom` | bt2/google_calender.py:94-114 | the visited starts the inner loop leaves free, in visiting order: the loop's output before rendering (`FreeStartsSound`, `FreeStartsComplete`, `FreeStartsSpaced`, `FreeStartsCount`) |
| `Availability.SlotAt` | bt2/google_calender.py:110-112 | the pair appended for a free start: its local time of day and its `"HH:MM"` text (`SlotAtShows`, `SlotAtWithinDay`) |
| `Availability.RenderAll` | bt2/google_calender.py:110-112 | the list of pairs for a list of free starts, one pair per start, in order (`RenderAllAt`, `RenderAllSnoc`) |
| `Availability.AvailableSlots` | bt2/google_calender.py:70-116 | the whole result: `[]` when the fetch raised, otherwise the pairs of the day's free starts between 08:00 and 20:00 (`GetAvailableSlots` returns it; the `SlotProperties` lemmas describe it) |
| `Availability.SlotAtShows` | bt2/google_calender.py:111-112 | a returned pair's time is the slot start's time of day, and its text reads back as that time |
| `Availability.RenderAllAt` | bt2/google_calender.py:110-112 | the pairs are produced one per free start, in the same order |
| `Availability.RenderAllSnoc` | bt2/google_calender.py:112 | appending one start appends exactly its pair to the result |
| `Availability.FreeStartsStep` | bt2/google_calender.py:94-114 | one loop iteration appends the current start iff it is free and advances by one duration, keeping the starts found so far a prefix of the day's free starts |
| `Availability.GetAvailableSlots` | bt2/google_calender.py:70-116 | the loop (skip all-day entries, stop at the first overlap, append free slots, step by the duration while the start is before 20:00) terminates for every positive duration and returns exactly `AvailableSlots`, including `[]` when the fetch failed; the duration defaults to 60 minutes |
| `SlotProperties.CandidatesCount` | bt2/google_calender.py:92-114 | the loop visits ceil((end - start) / d) candidates |
| `SlotProperties.CandidatesShape` | bt2/google_calender.py:92-114 | the k-th visited candidate is `start + k*d` |
| `SlotProperties.FreeStartsSound` | bt2/google_calender.py:94-110 | every start the loop keeps lies in `[start, end)`, is `start + k*d` for some k ≥ 0, and no entry overlaps its slot |
| `SlotProperties.FreeStartsSpaced` | bt2/google_calender.py:92-114 | the kept starts increase by at least one duration, so the returned slots never overlap one another |
| `SlotProperties.FreeStartsComplete` | bt2/google_calender.py:94-112 | a grid point `start + k*d` is kept iff it is below the end and no entry overlaps its slot |
| `SlotProperties.FreeStartsCount` | bt2/google_calender.py:94-114 | never more starts are kept than candidates are visited |
| `SlotProperties.FreeStartsWithoutTimedEvents` | bt2/google_calender.py:98-112 | with only all-day entries every visited candidate is kept |
| `SlotProperties.FreeStartsIgnoreAllDay` | bt2/google_calender.py:99-100 | the kept starts are the same with or without the all-day entries |
| `SlotProperties.FreeStartsUnderCoveringEvent` | bt2/google_calender.py:106 | a timed entry covering `[start, end)` leaves no start kept |
| `SlotProperties.FreeStartsAfterEvents` | bt2/google_calender.py:98-112 | once every timed entry has ended, every remaining candidate is kept |
| `SlotProperties.FetchFailureYieldsNoSlots` | bt2/google_calender.py:78-88 | a fetch that raised gives the empty list |
| `SlotProperties.SlotCountBound` | bt2/google_calender.py:94-114 | a day yields at most ceil(720 / d) slots, whatever the fetch returned |
| `SlotProperties.SlotAtWithinDay` | bt2/google_calender.py:111 | within one day, a slot's time of day is its offset from midnight, and distinct instants give distinct pairs |
| `SlotProperties.FreeStartShown` | bt2/google_calender.py:75-76 | a kept start of the day shows as a minute in `[08:00, 20:00)` that is 08:00 plus a whole number of durations |
| `SlotProperties.SlotsOnGridInWindow` | bt2/google_calender.py:75-96 | every returned slot starts in `[08:00, 20:00)` at 08:00 plus a whole number of durations |
| `SlotProperties.SlotsChronological` | bt2/google_calender.py:92-114 | the returned slots are in chronological order, each at least one duration after the previous |
| `SlotProperties.SlotTextsReadBack` | bt2/google_calender.py:111-112 | every returned text is the zero-padded `"HH:MM"` of its slot's time, and the time is a valid clock time |
| `SlotProperties.RenderedWithinDay` | bt2/google_calender.py:110-112 | for instants of one day, a pair is in the result iff its instant is among the kept starts |
| `SlotProperties.SlotReturnedIffFree` | bt2/google_calender.py:98-112 | a candidate `08:00 + k*d` before 20:00 is returned iff no timed entry overlaps it; an entry ending exactly at its start or starting exactly at its end does not block |
| `SlotProperties.AllDayEntriesNeverBlock` | bt2/google_calender.py:99-100 | the result is the same as for the timed entries alone |
| `SlotProperties.NoTimedEntriesGiveEveryCandidate` | bt2/google_calender.py:91-116 | with no timed entry, every candidate from 08:00 below 20:00 is returned, ceil(720 / d) of them |
| `SlotProperties.CoveringEntryLeavesNothing` | bt2/google_calender.py:91-116 | one timed entry covering 08:00–20:00 makes the result empty |
| `SlotProperties.HourlyStartsAroundOneBooking` | bt2/google_calender.py:70-114 | with the default 60-minute slots and a 09:00–10:00 booking there are 11 free starts: 08:00, then every hour from 10:00 through 19:00 |
| `SlotProperties.HourlySlotsAfterBooking` | bt2/google_calender.py:70-116 | that day yields 11 pairs: the 08:00 slot, then for i = 1..10 the pair with time (9+i):00 and its `"HH:MM"` text |
| `SlotProperties.BookedHourNotOffered` | bt2/google_calender.py:98-112 | the booked 09:00 slot is not among that day's pairs |
| `SlotProperties.HourlyDayWithOneBooking` | bt2/google_calender.py:70-116 | that day yields exactly 11 pairs: (08:00, `"08:00"`), then (10:00, `"10:00"`) through (19:00, `"19:00"`), and no pair for 09:00 |
| `SlotProperties.ShownAt` | bt2/google_calender.py:111-112 | the slot at hh:mm of a day carries the time hh:mm and its `"HH:MM"` text |
| `SlotProperties.LastSlotMayRunPastClosing` | bt2/google_calender.py:94-96 | with 50-minute slots 15 slots are generated and the last, 19:40, ends at 20:30, after closing |

## Left out

- The calendar request itself (lines 79-85) is an input, `Option<seq<Event>>`. `None` stands for any exception it raises. The error message printed on failure is not modelled.
- Time zones and ISO-8601 parsing (`timezone.make_aware`, `timezone.localtime`, `datetime.fromisoformat`) belong to the libraries. All instants are whole minutes in one reference frame, and the local time of day is the instant modulo 1440. Seconds and sub-minute offsets are not modelled.
- A comparison between a naive and an offset-aware `datetime`, which Python rejects with `TypeError`, is not modelled. Neither is a timed entry whose `end` lacks `dateTime`, which raises `KeyError` outside the `try`. Entries with no `start` at all are skipped exactly like all-day entries, so both are `AllDay`.
- A non-positive `duration_minutes` makes the source loop forever. It is excluded by the precondition `d > 0`.
- Authentication (`_authenticate`) and the event wrappers `create_event`, `update_event`, `delete_event` are left out. They only call the Google Calendar HTTP client.
- The Django views, forms, models, admin, URL routing and settings are left out. They are web glue around this computation.
