# Bluetooth attendance scan session, in Dafny

A classroom attendance app finds students by their phones' Bluetooth
devices. A fixed roster (`STUDENT_MAPPING`) maps a device identifier to a
student's name and division. `BluetoothAttendanceService` runs one scan
session at a time. It classifies every sighting from the Bluetooth LE scan:
unknown devices, devices already recorded and students of another division
are discarded, and the rest become presence records. Next to the real scan,
a demo source schedules up to four roster students of the selected division
as timers 1.5 s apart. The dashboard shows the present list. Its `prev =>`
updater keeps one entry per student, and it classifies signal strength
into three bands.

The project has these modules:

- `StringSort` (`string_sort.dfy`): the JavaScript idioms behind
  `getAvailableDivisions`. These are `[...new Set(xs)]` (first occurrences,
  in order) and `sort()` with no comparator (character-by-character order).
  The module proves that the order is a strict total order and that sorting
  is a permutation into ascending order.
- `OrderedMap` (`ordered_map.dfy`): a JavaScript `Map` as a sequence of
  entries in insertion order, with `set` and `values()`.
- `Roster` (`roster.dfy`): the twelve-entry table, `STUDENT_MAPPING[id]`,
  and `getAvailableDivisions`. For the real table the result is proved to be
  exactly `["Computer Science A", "Computer Science B", "Information
  Technology A", "Information Technology B"]`.
- `BluetoothService` (`bluetooth_service.dfy`): the class
  `AttendanceService`, with `devices`, `isScanning`, `scanTimeout` and
  `selectedDivision`. The host is made explicit as well. `timers` is the
  queue of pending `setTimeout` callbacks, each with a handle, a due time
  and a task: `AutoStop` or `MockEmit(id)`. `now` is the clock in
  milliseconds and `nextHandle` is the next handle to hand out. A timer
  fires only when it is the earliest one due; among timers due at the same
  time, the one scheduled first fires first. The plugin's outcomes
  (`requestLEScan` and `stopLEScan` succeeding or throwing) and
  `Math.random` are parameters of the methods that use them.
- `Dashboard` (`dashboard.dfy`): `getSignalStrength`, the
  `setPresentStudents` updater, and the class `AttendanceDashboard`, whose
  start and stop handlers drive the service.
- `Scenarios` (`scenarios.dfy`): two runs of the service, proved from start
  to finish.
  - In the fallback run, the LE scan fails, the session is idle at once, and
    the four "Computer Science A" students still arrive at 1.5, 3, 4.5 and
    6 s.
  - In the stale-emission run, a "Computer Science A" session is stopped and
    a "Computer Science B" one is started. The first pending emission of the
    old session then records Emma Johnson of "Computer Science A" in the new
    session.

The model follows the code in these points:

- Mock emissions skip classification. They call `devices.set` and the
  callback directly, with no roster, repeat or division check. A repeated
  mock emission overwrites the stored record and reaches the callback again.
- `stopScanning` clears only the auto-stop timer. Mock emissions are never
  cancelled: they arrive after a stop, and even in a later session.
- Mock emissions are scheduled on both paths: next to a successful LE scan,
  and as the fallback when it throws. On the fallback path the session is
  idle at once and no auto-stop is armed.
- The service starts with any division, including none. Refusing to start
  without a division is the dashboard's guard (`handleStartAttendance`).
- `setSelectedDivision` is accepted at any time, including mid-scan.
- So "every stored record passes the filter" is not an invariant of the
  class. What holds is that a classified sighting never breaks it
  (`HandleDeviceFound`), that mocks are chosen from the filter at scheduling
  time (`MockSelectionMatchesFilter`), and that a stale emission does break
  it (`StaleMockRun`).

## Model

| member | source | states |
|---|---|---|
| StringSort.LessTrichotomy | src/services/bluetoothService.ts:36 | the default string order of `sort()` is total and asymmetric: two strings are equal or exactly one is below the other |
| StringSort.LessTransitive | src/services/bluetoothService.ts:36 | the default string order is transitive |
| StringSort.LessPrefix | src/services/bluetoothService.ts:36 | a shared prefix does not change the order of two strings |
| StringSort.Sort | src/services/bluetoothService.ts:36 | `sort()` returns a permutation of its input (same multiset) in ascending order |
| StringSort.Insert | src/services/bluetoothService.ts:36 | inserting into an ascending sequence adds exactly that element and keeps it ascending |
| StringSort.Dedup | src/services/bluetoothService.ts:36 | `[...new Set(xs)]` has no repeats and holds exactly the values of `xs` |
| StringSort.PermutationKeepsNoDuplicates | src/services/bluetoothService.ts:36 | sorting a sequence without repeats yields one without repeats |
| StringSort.AscendingDistinctIsStrict | src/services/bluetoothService.ts:36 | an ascending sequence without repeats is strictly ascending |
| StringSort.StrictlyAscendingUnique | src/services/bluetoothService.ts:36 | two strictly ascending sequences with the same members are equal, so the division list is determined by the set of divisions |
| OrderedMap.Has | src/services/bluetoothService.ts:106 | `devices.has(id)`: some entry of the map has key `id` |
| OrderedMap.Put | src/services/bluetoothService.ts:121 | `map.set(k, v)` keeps keys unique, adds `k` to the keys, replaces the value in place when `k` is present and appends otherwise |
| OrderedMap.Values | src/services/bluetoothService.ts:172 | `Array.from(map.values())` lists the values in insertion order |
| Roster.Lookup | src/services/bluetoothService.ts:104 | `STUDENT_MAPPING[id]` is undefined exactly when no entry has key `id`, and otherwise is the info of an entry with that key |
| Roster.LookupEntry | src/services/bluetoothService.ts:104 | with distinct keys, looking up an entry's key yields that entry's info |
| Roster.StudentMapping | src/services/bluetoothService.ts:18-31 | the twelve `STUDENT_MAPPING` entries, with their device ids, names and divisions, in the order the literal lists them |
| Roster.StudentMappingIdsDistinct | src/services/bluetoothService.ts:18-31 | the table lists each device identifier once |
| Roster.DivisionColumn | src/services/bluetoothService.ts:35 | the mapped division column has one division per entry, in table order |
| Roster.AvailableDivisions | src/services/bluetoothService.ts:34-37 | `getAvailableDivisions` is strictly ascending (sorted, no repeats) and holds exactly the divisions that occur in the table |
| Roster.ExpectedDivisionsAscend | src/services/bluetoothService.ts:36 | the four division names of the table are in strictly ascending string order |
| Roster.ExpectedDivisionsOccur | src/services/bluetoothService.ts:18-31 | a name is a division of the table exactly when it is one of the four names |
| Roster.StudentMappingDivisions | src/services/bluetoothService.ts:34-37 | for the real table, `getAvailableDivisions` returns exactly the four divisions in ascending order |
| BluetoothService.FilterActive | src/services/bluetoothService.ts:108 | the filter is active exactly when `selectedDivision` is truthy: set and not the empty string |
| BluetoothService.PassesFilter | src/services/bluetoothService.ts:131 | a division gets through when no filter is active or it equals the selected division |
| BluetoothService.DeviceRecord | src/services/bluetoothService.ts:112-119 | the `StudentDevice` literal both paths build: id and device id are the key, name and division come from the roster, with the given RSSI and timestamp |
| BluetoothService.Matching | src/services/bluetoothService.ts:130-131 | the positions, from `from` on, of the table entries the `.filter` keeps, in table order |
| BluetoothService.MatchingSound | src/services/bluetoothService.ts:130-132 | `.filter` keeps only entries whose division passes the filter, each once, in table order |
| BluetoothService.MatchingComplete | src/services/bluetoothService.ts:130-132 | `.filter` drops no entry whose division passes the filter |
| BluetoothService.MockPositions | src/services/bluetoothService.ts:133 | `.slice(0, 4)` chooses at most four entries |
| BluetoothService.MockPositionsSound | src/services/bluetoothService.ts:130-133 | each chosen entry passes the division filter (or the filter is empty), in table order |
| BluetoothService.MockPositionsFirst | src/services/bluetoothService.ts:130-133 | the chosen entries are the first matching ones: a matching entry before the last chosen one is chosen, and fewer than four are chosen only when no other entry matches |
| BluetoothService.LeadingEntriesMatch | src/services/bluetoothService.ts:130-133 | when the first four table entries all match, they are exactly the chosen ones |
| BluetoothService.MockSelection | src/services/bluetoothService.ts:130-133 | one mock device identifier per chosen entry |
| BluetoothService.MockSelectionIds | src/services/bluetoothService.ts:132 | the `i`-th mock device is the key of the `i`-th chosen entry, so the mock ids follow table order |
| BluetoothService.MockSelectionMatchesFilter | src/services/bluetoothService.ts:130-133 | every mock device is a roster student whose division passes the filter at scheduling time |
| BluetoothService.MockSelectionInRoster | src/services/bluetoothService.ts:130-133 | every mock device is a roster key |
| BluetoothService.MockDue | src/services/bluetoothService.ts:149 | mock emission `index` of a start at `at` is due `(index + 1) * 1500` ms after it |
| BluetoothService.MockSchedule | src/services/bluetoothService.ts:135-149 | one timer per mock device |
| BluetoothService.MockScheduleEntries | src/services/bluetoothService.ts:135-149 | emission `i` is for mock device `i`, under handle `first + i`, due `(i + 1) * 1500` ms after the start, so the emissions are 1.5 s apart in selection order |
| BluetoothService.MockEmissionsPrecedeAutoStop | src/services/bluetoothService.ts:135-149 | every mock emission of a start comes due before that start's 10 s auto-stop |
| BluetoothService.Cancel | src/services/bluetoothService.ts:161 | `clearTimeout(h)` drops exactly the pending timers with handle `h`, and changes nothing when no timer has it |
| BluetoothService.CancelKeepsHandlesDistinct | src/services/bluetoothService.ts:161 | cancelling keeps the handles of the remaining timers distinct |
| BluetoothService.CancelAppend | src/services/bluetoothService.ts:161 | cancelling distributes over concatenation, so the remaining timers keep their order |
| BluetoothService.CancelKeepsMockEmissions | src/services/bluetoothService.ts:160-163 | clearing `scanTimeout` keeps every pending mock emission and leaves only mock emissions |
| BluetoothService.CancelKeepsTimersWellFormed | src/services/bluetoothService.ts:160-163 | after the auto-stop is cleared the timer queue is well formed with no auto-stop handle held |
| BluetoothService.PutKeepsDevicesWellFormed | src/services/bluetoothService.ts:121 | storing a roster student's record keeps one record per device, each a roster student's |
| BluetoothService.RemoveLeavesNoHolder | src/services/bluetoothService.ts:85-87 | once the auto-stop timer has fired, no pending timer holds its handle |
| BluetoothService.AttendanceService.constructor | src/services/bluetoothService.ts:39-43 | a new service is idle, with an empty map, no timeout handle, no division and the real table |
| BluetoothService.AttendanceService.SetSelectedDivision | src/services/bluetoothService.ts:56-58 | the division is set and nothing else changes |
| BluetoothService.AttendanceService.StartScanning | src/services/bluetoothService.ts:60-99 | already scanning: nothing changes; otherwise the map is emptied; on LE success the session is scanning with a 10 s auto-stop under the next handle, on failure it is idle with none; either way the mock emissions are appended after it, and the next free handle moves past all of them |
| BluetoothService.AttendanceService.BeginSession | src/services/bluetoothService.ts:66-95 | the part of `startScanning` before the mocks: the map is emptied; on LE success scanning with the auto-stop armed under the next handle, on failure idle with no timer added |
| BluetoothService.AttendanceService.ArmAutoStop | src/services/bluetoothService.ts:85-87 | a successful start arms one auto-stop, due 10 s from now, and `scanTimeout` holds its handle |
| BluetoothService.AttendanceService.AddMockDevices | src/services/bluetoothService.ts:128-151 | the pending timers gain exactly the mock schedule of the selected division, in order, and stay well formed |
| BluetoothService.AttendanceService.ScheduleMock | src/services/bluetoothService.ts:136-149 | one `setTimeout` of the loop appends one mock emission under the next handle |
| BluetoothService.AttendanceService.HandleDeviceFound | src/services/bluetoothService.ts:101-126 | unknown device, device already stored, or a division the active filter rejects: nothing is stored or reported; otherwise exactly the roster student's record with the sighting's RSSI is appended and reported; a map whose records all pass the filter keeps that property |
| BluetoothService.AttendanceService.FireMockEmit | src/services/bluetoothService.ts:136-148 | a mock emission fires whether or not the session is scanning, stores the roster record over any earlier one for that device, reports it, and has an RSSI in [-80, -41] |
| BluetoothService.AttendanceService.FireAutoStop | src/services/bluetoothService.ts:85-87 | the auto-stop timer fires and runs `stopScanning`: the session is idle on success and unchanged on failure, the map is untouched |
| BluetoothService.AttendanceService.StopScanning | src/services/bluetoothService.ts:153-169 | idle, or `stopLEScan` throws: nothing changes; otherwise the session is idle, the LE scan is off, and only the auto-stop timer is cleared |
| BluetoothService.AttendanceService.GetDetectedStudents | src/services/bluetoothService.ts:171-173 | the stored records in insertion order, one per device, each a roster student's |
| BluetoothService.AttendanceService.IsCurrentlyScanning | src/services/bluetoothService.ts:175-177 | returns the scanning flag |
| Dashboard.SignalStrength | src/components/AttendanceDashboard.tsx:107-112 | no RSSI or RSSI 0 is medium; otherwise strong iff above -50, medium iff in (-70, -50], weak iff at most -70 |
| Dashboard.AddPresent | src/components/AttendanceDashboard.tsx:68-80 | a device whose id is listed leaves the list unchanged; any other is appended at the end; ids stay unique |
| Dashboard.PresentAfter | src/components/AttendanceDashboard.tsx:68-80 | the present list after the updater has run for each report in order, from the empty list |
| Dashboard.PresentAfterListsReported | src/components/AttendanceDashboard.tsx:68-80 | after any run of callbacks from the empty list, an id is listed exactly when it was reported |
| Dashboard.PresentAfterKeepsFirstReports | src/components/AttendanceDashboard.tsx:68-80 | whatever the service reports, repeats included, the list holds one entry per id, and that entry is the first report of it |
| Dashboard.ListedAppend | src/components/AttendanceDashboard.tsx:79 | appending a student lists its id and keeps the ids listed before |
| Dashboard.AttendanceDashboard.constructor | src/components/AttendanceDashboard.tsx:25-28 | the dashboard starts idle with an empty list, no start time and no division |
| Dashboard.AttendanceDashboard.SelectDivision | src/components/AttendanceDashboard.tsx:191 | the division select stores the chosen division |
| Dashboard.AttendanceDashboard.StartAttendance | src/components/AttendanceDashboard.tsx:45-67 | no division selected: refused, nothing changes; otherwise scanning with an empty present list, and the service's new timers are exactly the auto-stop (on LE success) and the mock schedule of the selected division, so the division reached the service before its scan started; a start while the service is already scanning leaves its map, timers, handle counter, clock and LE scan as they were |
| Dashboard.AttendanceDashboard.OnDeviceFound | src/components/AttendanceDashboard.tsx:67-81 | the callback applies the updater to the present list |
| Dashboard.AttendanceDashboard.ScanResultArrives | src/components/AttendanceDashboard.tsx:67-81 | an LE result is reported exactly when it is a roster device not yet stored whose division passes the filter; the report is that student's record with the result's RSSI, the service's map gains exactly it, and the present list changes only then, by the updater |
| Dashboard.AttendanceDashboard.MockTimerFires | src/components/AttendanceDashboard.tsx:67-81 | timer `k`'s roster record is stored over any earlier one, the timer leaves the queue, and the record reaches the updater, whose own check keeps ids unique |
| Dashboard.AttendanceDashboard.StopScanning | src/components/AttendanceDashboard.tsx:93-101 | the dashboard shows idle whether or not the service's stop succeeded; the service stays scanning only if its stop failed, and a successful stop clears only its auto-stop timer; a failed or idle stop leaves the service's timers, timeout and LE scan as they were, so a running LE scan keeps delivering |
| Scenarios.ComputerScienceAFirst | src/services/bluetoothService.ts:18-22 | the first four table entries are the "Computer Science A" students |
| Scenarios.FallbackStart | src/services/bluetoothService.ts:92-98 | a start whose LE scan throws leaves the session idle with the four leading students scheduled |
| Scenarios.FireNextMock | src/services/bluetoothService.ts:136-148 | the next pending mock emission of a run records table entry `n` at `start + 1500 * (n + 1)` |
| Scenarios.FireMocks | src/services/bluetoothService.ts:135-150 | the four mock emissions fire in order and record table entries 0 to 3, 1.5 s apart |
| Scenarios.FallbackRun | src/services/bluetoothService.ts:92-98 | with the LE scan failing, the session is idle yet the four students of the division arrive in table order |
| Scenarios.FallbackSession | src/services/bluetoothService.ts:92-98 | on the real table, the "Computer Science A" students arrive at 1.5, 3, 4.5 and 6 s |
| Scenarios.StartOnLe | src/services/bluetoothService.ts:67-90 | a start whose LE scan succeeds queues the auto-stop first and the mock emissions after it |
| Scenarios.StartAndStop | src/services/bluetoothService.ts:160-163 | a session stopped at once loses its auto-stop and keeps all its mock emissions pending |
| Scenarios.CancelLeadingTimer | src/services/bluetoothService.ts:161 | cancelling the first of a run of timers whose other handles differ leaves the rest |
| Scenarios.FireFirstEmission | src/services/bluetoothService.ts:136-148 | into an empty map, the earliest mock emission stores exactly its roster record |
| Scenarios.StaleMockRun | src/services/bluetoothService.ts:160-163 | a stopped session's first mock emission is recorded in the next session although its division fails that session's filter |
| Scenarios.StaleMockSession | src/services/bluetoothService.ts:160-163 | on the real table, Emma Johnson of "Computer Science A" is recorded in a "Computer Science B" session |

## Left out

- `BleClient.initialize`, `requestLEScan` and `stopLEScan` are calls into a
  native plugin. Each is modelled as a success flag passed to the method that
  calls it. `initialize` and its toast on failure are not modelled.
- `setTimeout` and `clearTimeout` become the explicit `timers` queue. The
  host's scheduling is modelled as "the earliest due timer fires next".
  `AdvanceClock` lets time pass without any timer coming due.
- `new Date()` becomes the clock reading `now`. `formatTime` and locale
  formatting are not modelled.
- `Math.random()` is a float. The model takes `draw`, the value of
  `Math.floor(Math.random() * 40)`, as an integer parameter in [0, 40).
- Toasts, `console.log`, `console.error`, JSX and React hooks are
  presentation and logging only. React's batching of `setState` calls is not
  modelled: each updater runs at once.
- The dashboard's own 10 s `setTimeout` only flips a display flag and is not
  modelled.
- The async interleaving is not modelled. Each method runs to completion; a
  sighting can arrive between operations, but not in the middle of one.
- `src/pages/Index.tsx` and `capacitor.config.ts` are not part of this
  model.
- `rssi` is an integer or absent. NaN and fractional values are not
  modelled.
- Strings are sequences of characters. JavaScript compares UTF-16 code units
  and the model compares characters; the two agree on the table's ASCII
  names.
- `sort()` is modelled by insertion sort. Any correct sort yields the same
  result on these inputs: that result is determined (`StrictlyAscendingUnique`).
- Roster.Lookup: looks up the table's own keys only. In JavaScript,
  `STUDENT_MAPPING[id]` for an id such as `"toString"`, `"constructor"` or
  `"__proto__"` yields an inherited `Object.prototype` member, which is
  truthy. With no filter active, `handleDeviceFound` would then store a
  record with division `undefined`. The model discards such a sighting, and
  the invariant "every stored key is a roster key" relies on that. A device
  id from the plugin is a MAC address or a UUID, so it is never such a name.
  The dashboard also always sets a non-empty division, and `undefined` fails
  that filter.
- BluetoothService.AttendanceService.HandleDeviceFound: requires that the LE
  scan is active, because its only caller is the LE scan's result callback.
- Dashboard.AttendanceDashboard.MockTimerFires: each mock timer closure holds
  the dashboard callback of the start that scheduled it. The model passes
  every emission to the one dashboard, since there is only one.
