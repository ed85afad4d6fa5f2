# AS3935 lightning monitor — event history engine

A Dafny model of the part of the ESP32 lightning monitor firmware (`src/main.cpp`) that
decides what the device remembers and reports:

- the in-memory event store: a bounded queue of at most 2000 lightning events, where a
  full store drops its oldest entry on append, and a trim that drops entries older than
  24 hours;
- one pass of the main loop. This is the state machine over the process globals: the
  interrupt flag set by the ISR, the pending event code, the last distance and energy,
  the time of the last event and the time of the last 10-second poll. The poll test is
  computed with unsigned 32-bit subtraction;
- the query rules of the two history endpoints. `/api/events` lists the last `since`
  seconds newest first: the scan walks back from the newest entry and stops at the first
  older one. `/api/stats` counts the last hour or the last day into four distance
  buckets;
- the live status of `/api/live`: the four distance LEDs, as an exact-match table over
  the sensor's distance codes, and the label of the pending event code.

Modules:

- `Base`: fixed-width integers, the event record and the constants.
- `Store`: the store operations as functions, with the lemmas about them.
- `Params`: query-parameter defaults.
- `Display`: the LED table and the event label.
- `Monitor`: the loop as a function on a state snapshot (`Cycle`) and the globals as
  the class `Monitor`. Its methods are proved to perform exactly those functions.
- `Scenarios`: worked examples on concrete histories.

## Model

| member | source | states |
|---|---|---|
| Store.Appended | src/main.cpp:712-740 | The drop-oldest append, at both sites: the interrupt record (712-713) and the poll's confirmation record (739-740). The new record is the newest entry and at most one old entry is dropped. `AppendKeepsCap`, `AppendWithinCap` and `AppendKeepsSorted` state the rest. |
| Store.AppendKeepsCap | src/main.cpp:712-713 | Appending puts the new event last and keeps the old entries in order. An entry is dropped, and it is the oldest one, exactly when the store already held `cap` entries. A store within its cap ends at `min(n+1, cap)` entries. |
| Store.AppendWithinCap | src/main.cpp:712-713 | A store within its cap stays within it after an append. |
| Store.AppendKeepsSorted | src/main.cpp:712-713 | Appending an event no older than any stored entry keeps the store time-ordered and adds no entry other than the new one. |
| Monitor.Monitor.Append | src/main.cpp:712-713 | The history becomes the drop-oldest append of the event, and the 2000-entry cap is kept. |
| Store.Trimmed | src/main.cpp:115-119 | The trim only removes entries and stops at an entry inside the window, or empties the store. `TrimRemovesStalePrefix`, `TrimSortedIsExact`, `TrimIdempotent` and `TrimKeepsSorted` state the rest. |
| Store.TrimRemovesStalePrefix | src/main.cpp:115-119 | The trim leaves a suffix of the store. Every entry it removed is older than the cutoff, and the new front (if any) is not. |
| Store.TrimSortedIsExact | src/main.cpp:115-119 | On a time-ordered store the trim keeps exactly the entries stamped at or after the cutoff, in order. |
| Store.TrimIdempotent | src/main.cpp:115-119 | Trimming twice with the same cutoff is the same as trimming once. |
| Store.TrimKeepsSorted | src/main.cpp:115-119 | Trimming a time-ordered store leaves it time-ordered. |
| Monitor.Monitor.TrimOlderThan | src/main.cpp:115-119 | The pop-front loop leaves exactly `Trimmed(old history, cutoff)`. |
| Store.Window | src/main.cpp:544-553 | The listed entries are the newest ones, newest first, each at or after the cutoff. A shorter list means the scan stopped at an older entry. |
| Store.WindowOfSorted | src/main.cpp:544-553 | On a time-ordered store the listing is the reverse of the trimmed store: every entry of the window, none missing, newest first and non-increasing in time. |
| Params.SinceSeconds | src/main.cpp:532-537 | The window is always positive. A positive `since` is used as given; an absent or non-positive one gives 3600. |
| Monitor.Monitor.Events | src/main.cpp:531-553 | The reverse scan with its `break` returns exactly `Window(history, now - since)`. |
| Params.RangeSeconds | src/main.cpp:561-562 | `range=day` gives 86400 s; anything else, including no argument, gives 3600 s. |
| Store.BucketOf | src/main.cpp:572-575 | 63 is out of range, 0..5 near, 6..15 mid, and above 15 (except 63) far. Each holds both ways. |
| Store.Stats.Counted | src/main.cpp:570-575 | One pass of the counting loop. The total advances exactly for an entry inside the window, and with it exactly the `BucketOf` bucket of the entry's distance; the other buckets stay. A stale entry changes nothing. |
| Store.Tally | src/main.cpp:566-576 | The counters after the whole loop: at most one count per stored entry. `TallyCountsRecent`, `TallyBucketsSum` and `TallyMatchesWindow` state the rest. |
| Store.TallyCountsRecent | src/main.cpp:566-576 | The tally counts the entries at or after the cutoff, and each bucket counter counts those entries in that bucket. |
| Store.TallyBucketsSum | src/main.cpp:566-576 | The four bucket counters add up to the total, which is at most the store size. |
| Store.TallyMatchesWindow | src/main.cpp:544-576 | On a time-ordered store `/api/stats` counts exactly as many entries as `/api/events` lists for the same window. |
| Monitor.Monitor.Statistics | src/main.cpp:560-585 | The counting loop with its `continue` reports the range and the counters of `Tally(history, now - range)`. The 32-bit counters never wrap, and they sum to the total. |
| Display.LedsForDistance | src/main.cpp:121-172 | The exact-match switch: 63 (out of range) and 0 light nothing. `LedTableIsCounter` and `CloserLightsMore` characterise the whole table. |
| Display.LedTableIsCounter | src/main.cpp:121-172 | LEDs light exactly for the 15 table keys, and all are off for 63, 0 and any other code. The k-th key from the far end (40 km) shows k in binary on l4..l1. |
| Display.CloserLightsMore | src/main.cpp:121-172 | Of two table keys, the closer distance shows the larger binary number. |
| Display.EventName | src/main.cpp:503-511 | 0, 1, 4 and 8 are named Kein, Rauschen, Störer and Blitz, each both ways; every other code has an empty name. |
| Display.Binary | src/main.cpp:512 | `String(n, BIN)` is nonempty and made of 0/1 digits. It has no leading zero: a longer text starts with '1', and zero is the single digit "0". With `BinaryRoundTrip` this fixes the text for every n. |
| Display.BinaryRoundTrip | src/main.cpp:512 | Reading the binary text back gives the number. |
| Display.EventLabel | src/main.cpp:502-513 | The label is the code's name, then the fixed separator, then exactly `String(code, BIN)`, which reads back as the code. |
| Monitor.Monitor.Live | src/main.cpp:495-524 | The reported distance, energy and event time are the globals, and the LEDs show that distance. The label belongs to the pending code. The ISO time is present iff an event time is set. The trigger is "Interrupt" when the last pass saw the flag and "Polling" otherwise. The sensor status reads "Ja, I2C Up" or "Nein, I2C Down". The uptime is `ms / 1000`. |
| Monitor.Boot | src/main.cpp:76-100 | Start-up state: flag clear, poll time 0, empty store, no event time, within the cap. |
| Monitor.Monitor.constructor | src/main.cpp:641-656 | The globals start as `Boot`: distance 63 (LEDs off), no event, no pending flag, poll time 0. |
| Monitor.Monitor.OnInterrupt | src/main.cpp:105 | The ISR only raises the flag; nothing else changes. |
| Monitor.Elapsed | src/main.cpp:727 | `millis() - tLastPoll` in `uint32_t`: the plain difference without wrap, and the difference plus 2^32 across the wrap-around. |
| Monitor.IrqRecord | src/main.cpp:713 | The interrupt record is stamped now and carries the interrupt's distance, energy and code, plus the `AS3935_irq` flag. |
| Monitor.PollRecord | src/main.cpp:740 | The confirmation record is stamped now and carries the poll's distance and energy, the pending code and the `AS3935_irq` flag. |
| Monitor.InterruptPath | src/main.cpp:691-724 | The interrupt path consumes the flag, keeps the code for the poll, and leaves the poll time and sensor status alone. The cycle lemmas below state what it records. |
| Monitor.PollPath | src/main.cpp:726-744 | A poll that is not due (`PollFires` false: 10 s not elapsed, or no pending code) changes nothing. A poll that fires clears the code, restarts the interval and stores a record. The poll never touches the flags or the event time. |
| Monitor.Cycle | src/main.cpp:682-745 | One pass of the loop: the flag is consumed, and `AS3935_irq` records whether it was set. The lemmas below state the store and readings in each case. |
| Monitor.CycleKeepsConsistent | src/main.cpp:682-745 | No pass of the loop takes the store above 2000 entries. |
| Monitor.CycleConsumesFlag | src/main.cpp:689-694 | Every pass clears the interrupt flag, and `AS3935_irq` records whether it was set. |
| Monitor.QuietCycleOnlyTrims | src/main.cpp:682-745 | With no interrupt and no pending code, a pass only trims the store. |
| Monitor.ZeroCodeRecordsNothing | src/main.cpp:697-723 | An interrupt whose source code is 0 records nothing, changes none of the reported readings and leaves no code pending. |
| Monitor.InterruptRecordsOnce | src/main.cpp:697-714 | A nonzero code with the poll not due is recorded once, stamped now, with the interrupt's reading; the code stays pending. |
| Monitor.InterruptAndPollRecordTwice | src/main.cpp:697-742 | A nonzero code in a pass where the poll is due is stored twice: the interrupt record and then the poll's confirmation with the same code. The code is then cleared and the poll time restarted. |
| Monitor.PollConfirmsPendingEvent | src/main.cpp:727-742 | Without an interrupt, a pending code is confirmed once after 10 s. The record is marked not interrupt-triggered, the code is cleared, and the event time is kept. |
| Monitor.PollWaitsForInterval | src/main.cpp:727-744 | Within 10 s the poll changes nothing: the pass ends exactly in the state the trim and the interrupt path leave, the poll time is kept and the code stays pending. |
| Monitor.PendingNotDueOnlyTrims | src/main.cpp:727-743 | With no interrupt, a pending code and the poll not yet due, the pass only trims: readings, poll time and pending code are kept. |
| Monitor.CycleRetainsLastDay | src/main.cpp:685-745 | With a clock that does not run backwards, after each pass the store is time-ordered and holds only entries from the last 24 hours. |
| Monitor.Monitor.HandleInterrupt | src/main.cpp:691-724 | The interrupt branch performs exactly `InterruptPath`. |
| Monitor.Monitor.Poll | src/main.cpp:726-744 | The poll branch performs exactly `PollPath`. |
| Monitor.Monitor.Loop | src/main.cpp:682-745 | One pass performs exactly `Cycle` and keeps the store within its cap. |
| Scenarios.TrimDropsDayOldEntries | src/main.cpp:687 | At 90001 s the day trim drops entries from 0 and 100 s and keeps the one from 90000 s. |
| Scenarios.CapOfTwoKeepsLastTwo | src/main.cpp:712-713 | With room for two, appending A, B and C leaves B and C. |
| Scenarios.HourWindowListsNewestFirst | src/main.cpp:544-553 | The hour's window at 10000 s over entries from 6000, 7000, 9999 and 10000 s lists the last three, newest first. |
| Scenarios.HourTallyOfSameStore | src/main.cpp:566-576 | The same store tallied over the hour counts three near entries. |

The external inputs of one pass are fields of `CycleInput`: the wall clock, the
interrupt-source register, the distance and energy read on each path, and the two
`millis()` readings. `millis()` is read twice in the poll (`msCheck`, `msStamp`) because
the firmware reads it twice.

The header comment of the firmware describes the LED pattern differently from the
`switch` in `setLedsForDistance`. The model follows the `switch`.

## Left out

- WiFi connection, NTP time setup and the reconnect timer: network I/O. The wall clock is an input.
- The HTML page of `/` and the JSON encoding and sending of every reply: presentation and I/O. The fixed JSON document sizes (32768 bytes for events) can truncate a long listing; the model lists every entry of the window.
- `tsToIso8601`: calendar formatting. Only whether an ISO time is present is modelled.
- Sensor initialisation and the sensor driver calls: their results are inputs, and `started` is a constructor argument.
- The ISR critical section (`noInterrupts`/`interrupts`) and concurrency with the ISR: a pass is modelled as atomic, and an interrupt between passes is `OnInterrupt`.
- The LED pin writes, their read-back in `/api/live` and the start-up blinks: GPIO. The model derives the LEDs from the last reported distance, and that distance is what the firmware wrote to the pins.
- `server.handleClient` at the start of the loop: request dispatch. The handlers are modelled as their own methods.
- `String::toInt` parsing of `since`: the model takes the parsed value (0 for text that is not a number).
- Monitor.Monitor.Live: the `ip` field is left out (network state).
- Widths of `time_t` and `long`: timestamps and windows are unbounded integers. Overflow of `now - since` for huge `since` values is not modelled.
- The `intSrc & 0x01` and `intSrc & 0x04` branches of the loop only print. They can never be reached because they follow `intSrc != 0`, and the model proves this.
- The serial log lines (`Serial.printf`/`println`, such as the lightning report and the poll notice): debug output only; they change no state.
- Strings are sequences of Unicode characters. The firmware's `String` holds UTF-8 bytes, so "Störer" and " :: Wert binär =" are one byte longer per umlaut there than the lengths in `EventLabel`.
- `intSrc`: the register value is a `uint8`, which is also what `lastEvent` keeps.
