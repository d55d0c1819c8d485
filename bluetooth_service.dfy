/**
 * `BluetoothAttendanceService`: one attendance scan session. Sightings from
 * the Bluetooth LE scan are classified against the roster (unknown device,
 * already seen, other division: discarded), and a demo source schedules up
 * to four roster students of the selected division as staggered timers.
 *
 * The host's timers are explicit state: `timers` is the queue of pending
 * `setTimeout` callbacks (each with its handle, due time in milliseconds and
 * task), `now` is the clock, and a timer fires only when it is the earliest
 * one due. The plugin's outcomes (`requestLEScan`, `stopLEScan` succeeding or
 * throwing) and `Math.random` are parameters of the methods that call them.
 */
module BluetoothService {
  import opened Wrappers
  import opened OrderedMap
  import opened Roster

  /** Delay of the auto-stop timer armed by a successful start. */
  const ScanDuration: nat := 10000
  /** Mock emission `index` of a start at time `at` is due 1.5 s per step
      after it: `(index + 1) * 1500` ms. */
  function MockDue(at: nat, index: nat): nat {
    at + 1500 * (index + 1)
  }
  /** `.slice(0, 4)`: at most this many mock students. */
  const MockLimit: nat := 4
  /** A mock RSSI is `Math.floor(Math.random() * RssiSpread) + RssiFloor`. */
  const RssiSpread: nat := 40
  const RssiFloor: int := -80

  /** `StudentDevice`; `timestamp` is the clock reading when it was made. */
  datatype StudentDevice = StudentDevice(
    id: string, name: string, deviceId: string, division: string,
    rssi: Option<int>, timestamp: nat)

  /** The part of the plugin's `ScanResult` the service reads. */
  datatype ScanResult = ScanResult(deviceId: string, rssi: Option<int>)

  /** What a pending timer does when it fires. */
  datatype Task = AutoStop | MockEmit(deviceId: string)

  datatype Timer = Timer(handle: nat, due: nat, task: Task)

  /** `this.selectedDivision` is truthy: neither null nor the empty string. */
  predicate FilterActive(selected: Option<string>) {
    selected.Some? && selected.value != ""
  }

  /** A division gets through the filter when no filter is active or it is
      the selected one. */
  predicate PassesFilter(selected: Option<string>, division: string) {
    !FilterActive(selected) || division == selected.value
  }

  /** The record both paths build for a roster student. */
  function DeviceRecord(id: string, info: StudentInfo, rssi: Option<int>, at: nat): StudentDevice {
    StudentDevice(id, info.name, id, info.division, rssi, at)
  }

  /** A record whose name and division are the roster's for its id. */
  predicate IsRosterStudent(roster: seq<RosterEntry>, s: StudentDevice) {
    Lookup(roster, s.id) == Some(StudentInfo(s.name, s.division))
  }

  /** A stored entry: keyed by a roster device, holding that student's record. */
  predicate IsRosterRecord(roster: seq<RosterEntry>, e: Entry<StudentDevice>) {
    && IsRosterStudent(roster, e.value)
    && e.value.id == e.key
    && e.value.deviceId == e.key
  }

  /** Positions, from `from` on, of the table entries whose division passes
      the filter, in table order: the `.filter` of `Object.entries`. */
  function Matching(t: seq<RosterEntry>, selected: Option<string>, from: nat): seq<nat>
    decreases |t| - from
  {
    if from >= |t| then []
    else if PassesFilter(selected, t[from].info.division) then [from] + Matching(t, selected, from + 1)
    else Matching(t, selected, from + 1)
  }

  /** Every position in `r` is at or after `from` and names an entry whose
      division passes the filter. */
  predicate AllMatch(t: seq<RosterEntry>, selected: Option<string>, from: nat, r: seq<nat>) {
    forall i :: 0 <= i < |r| ==> from <= r[i] < |t| && PassesFilter(selected, t[r[i]].info.division)
  }

  predicate StrictlyIncreasing(r: seq<nat>) {
    forall i, j :: 0 <= i < j < |r| ==> r[i] < r[j]
  }

  /** The filter keeps only matching entries, each once, in table order. */
  lemma {:induction false} MatchingSound(t: seq<RosterEntry>, selected: Option<string>, from: nat)
    ensures AllMatch(t, selected, from, Matching(t, selected, from))
    ensures StrictlyIncreasing(Matching(t, selected, from))
    decreases |t| - from
  {
    if from < |t| {
      MatchingSound(t, selected, from + 1);
      var rest := Matching(t, selected, from + 1);
      if PassesFilter(selected, t[from].info.division) {
        var r := [from] + rest;
        assert forall i :: 1 <= i < |r| ==> r[i] == rest[i - 1];
        assert Matching(t, selected, from) == r;
      } else {
        assert Matching(t, selected, from) == rest;
      }
    }
  }

  /** The filter drops no matching entry. */
  lemma {:induction false} MatchingComplete(t: seq<RosterEntry>, selected: Option<string>, from: nat, k: nat)
    requires from <= k < |t| && PassesFilter(selected, t[k].info.division)
    ensures k in Matching(t, selected, from)
    decreases k - from
  {
    if k > from {
      MatchingComplete(t, selected, from + 1, k);
    }
  }

  /** Positions of the mock students: at most `MockLimit` matching entries,
      in table order. */
  function MockPositions(t: seq<RosterEntry>, selected: Option<string>): (r: seq<nat>)
    ensures |r| <= MockLimit
  {
    var all := Matching(t, selected, 0);
    if |all| <= MockLimit then all else all[..MockLimit]
  }

  /** Each mock position is a matching entry of the table, in table order. */
  lemma MockPositionsSound(t: seq<RosterEntry>, selected: Option<string>)
    ensures AllMatch(t, selected, 0, MockPositions(t, selected))
    ensures StrictlyIncreasing(MockPositions(t, selected))
  {
    MatchingSound(t, selected, 0);
    var all := Matching(t, selected, 0);
    if |all| > MockLimit {
      assert forall i :: 0 <= i < MockLimit ==> all[..MockLimit][i] == all[i];
    }
  }

  /** The mock students are the FIRST matching entries: every matching entry
      up to the last one chosen is chosen, and fewer than `MockLimit` are
      chosen only when no other entry matches. */
  lemma MockPositionsFirst(t: seq<RosterEntry>, selected: Option<string>, k: nat)
    requires k < |t| && PassesFilter(selected, t[k].info.division)
    requires var r := MockPositions(t, selected); |r| < MockLimit || k <= r[|r| - 1]
    ensures k in MockPositions(t, selected)
  {
    var all := Matching(t, selected, 0);
    MatchingSound(t, selected, 0);
    MatchingComplete(t, selected, 0, k);
    PrefixKeepsEarlier(all, MockPositions(t, selected), k);
  }

  /** When the first `MockLimit` entries all match, they are the mock students. */
  lemma LeadingEntriesMatch(t: seq<RosterEntry>, selected: Option<string>)
    requires |t| >= MockLimit
    requires forall k :: 0 <= k < MockLimit ==> PassesFilter(selected, t[k].info.division)
    ensures MockPositions(t, selected) == [0, 1, 2, 3]
  {
    var rest := Matching(t, selected, 4);
    assert Matching(t, selected, 3) == [3] + rest;
    assert Matching(t, selected, 2) == [2] + Matching(t, selected, 3);
    assert Matching(t, selected, 1) == [1] + Matching(t, selected, 2);
    assert Matching(t, selected, 0) == [0] + Matching(t, selected, 1);
    assert Matching(t, selected, 0) == [0, 1, 2, 3] + rest;
  }

  /** In an ascending sequence, a prefix holds every member up to its last. */
  lemma PrefixKeepsEarlier(all: seq<nat>, r: seq<nat>, k: nat)
    requires StrictlyIncreasing(all)
    requires r <= all && k in all
    requires r == all || (|r| > 0 && k <= r[|r| - 1])
    ensures k in r
  {
    if r != all {
      assert forall i :: |r| <= i < |all| ==> r[|r| - 1] == all[|r| - 1] < all[i];
      var p :| 0 <= p < |all| && all[p] == k;
      assert r[p] == k;
    }
  }

  /** The device identifiers `addMockDevices` chooses (lines 130-133). */
  function MockSelection(t: seq<RosterEntry>, selected: Option<string>): (ids: seq<string>)
    ensures |ids| == |MockPositions(t, selected)|
  {
    var positions := MockPositions(t, selected);
    MockPositionsSound(t, selected);
    seq(|positions|, i requires 0 <= i < |positions| => t[positions[i]].deviceId)
  }

  /** The `i`-th mock device is the key of the `i`-th chosen entry. */
  lemma MockSelectionIds(t: seq<RosterEntry>, selected: Option<string>)
    ensures var positions, ids := MockPositions(t, selected), MockSelection(t, selected);
      forall i :: 0 <= i < |ids| ==> positions[i] < |t| && ids[i] == t[positions[i]].deviceId
  {
    MockPositionsSound(t, selected);
  }

  /** Every mock student is a roster student of the selected division. */
  lemma MockSelectionMatchesFilter(t: seq<RosterEntry>, selected: Option<string>, i: int)
    requires IdsDistinct(t) && 0 <= i < |MockSelection(t, selected)|
    ensures IsRosterId(t, MockSelection(t, selected)[i])
    ensures PassesFilter(selected, Lookup(t, MockSelection(t, selected)[i]).value.division)
  {
    MockPositionsSound(t, selected);
    var p := MockPositions(t, selected)[i];
    LookupEntry(t, p);
  }

  /** Every mock student is a roster student. */
  lemma MockSelectionInRoster(t: seq<RosterEntry>, selected: Option<string>, i: int)
    requires 0 <= i < |MockSelection(t, selected)|
    ensures IsRosterId(t, MockSelection(t, selected)[i])
  {
    MockPositionsSound(t, selected);
    var p := MockPositions(t, selected)[i];
    assert t[p].deviceId == MockSelection(t, selected)[i];
  }

  /** The timers `addMockDevices` schedules at time `at`, handles from `first`. */
  function MockSchedule(ids: seq<string>, at: nat, first: nat): (r: seq<Timer>)
    ensures |r| == |ids|
  {
    seq(|ids|, i requires 0 <= i < |ids| => Timer(first + i, MockDue(at, i), MockEmit(ids[i])))
  }

  /** Mock emission `i` of the schedule is for device `ids[i]`, under handle
      `first + i`, due `(i + 1) * 1500` ms after `at`: the handles are
      consecutive and the emissions 1.5 s apart, in selection order. */
  lemma MockScheduleEntries(ids: seq<string>, at: nat, first: nat)
    ensures var r := MockSchedule(ids, at, first);
      forall i :: 0 <= i < |r| ==>
        && r[i].handle == first + i && r[i].task == MockEmit(ids[i])
        && r[i].due == at + 1500 * (i + 1)
        && (i > 0 ==> r[i].due == r[i - 1].due + 1500)
  {
  }

  predicate HandlesDistinct(ts: seq<Timer>) {
    forall i, j :: 0 <= i < j < |ts| ==> ts[i].handle != ts[j].handle
  }

  /** Every mock emission of a start comes due before its auto-stop. */
  lemma MockEmissionsPrecedeAutoStop(ids: seq<string>, at: nat, first: nat)
    requires |ids| <= MockLimit
    ensures forall i :: 0 <= i < |ids| ==> MockSchedule(ids, at, first)[i].due < at + ScanDuration
  {
  }

  /** `clearTimeout(handle)`: the pending timer with that handle is dropped,
      the others stay in order. */
  function Cancel(ts: seq<Timer>, handle: nat): (r: seq<Timer>)
    ensures forall x {:trigger x in r} :: x in r <==> x in ts && x.handle != handle
    ensures (forall i :: 0 <= i < |ts| ==> ts[i].handle != handle) ==> r == ts
  {
    if ts == [] then []
    else
      assert ts == [ts[0]] + ts[1..];
      var rest := Cancel(ts[1..], handle);
      if ts[0].handle == handle then rest else [ts[0]] + rest
  }

  /** Cancelling keeps the handles of the rest distinct. */
  lemma {:induction false} CancelKeepsHandlesDistinct(ts: seq<Timer>, handle: nat)
    requires HandlesDistinct(ts)
    ensures HandlesDistinct(Cancel(ts, handle))
    decreases |ts|
  {
    if ts != [] {
      var rest := Cancel(ts[1..], handle);
      CancelKeepsHandlesDistinct(ts[1..], handle);
      if ts[0].handle != handle {
        forall j | 0 <= j < |rest| ensures rest[j].handle != ts[0].handle {
          assert rest[j] in rest;
          var p :| 0 <= p < |ts| - 1 && ts[1..][p] == rest[j];
          assert ts[p + 1] == rest[j];
        }
      }
    }
  }

  /** Cancelling works timer by timer, so it keeps the order of the rest. */
  lemma {:induction false} CancelAppend(a: seq<Timer>, b: seq<Timer>, handle: nat)
    ensures Cancel(a + b, handle) == Cancel(a, handle) + Cancel(b, handle)
    decreases |a|
  {
    if a == [] {
      assert a + b == b;
    } else {
      assert (a + b)[1..] == a[1..] + b;
      CancelAppend(a[1..], b, handle);
    }
  }

  /** Every stored record is of a division the filter lets through. */
  predicate AllPassFilter(selected: Option<string>, devices: seq<Entry<StudentDevice>>) {
    forall i :: 0 <= i < |devices| ==> PassesFilter(selected, devices[i].value.division)
  }

  /** The stored map: one entry per device, each a roster student's record. */
  predicate DevicesWellFormed(roster: seq<RosterEntry>, devices: seq<Entry<StudentDevice>>) {
    && KeysUnique(devices)
    && forall i :: 0 <= i < |devices| ==> IsRosterRecord(roster, devices[i])
  }

  /** The pending timers: handles already handed out and pairwise distinct,
      none due before `now`, every mock for a roster device, and an auto-stop
      only under the handle `scanTimeout` holds. */
  predicate TimersWellFormed(roster: seq<RosterEntry>, timers: seq<Timer>, nextHandle: nat, now: nat, scanTimeout: Option<nat>) {
    && (forall i :: 0 <= i < |timers| ==> timers[i].handle < nextHandle && now <= timers[i].due)
    && HandlesDistinct(timers)
    && (forall i :: 0 <= i < |timers| && timers[i].task.MockEmit? ==> IsRosterId(roster, timers[i].task.deviceId))
    && (forall i :: 0 <= i < |timers| && timers[i].task.AutoStop? ==> scanTimeout == Some(timers[i].handle))
    && (forall i :: 0 <= i < |timers| && scanTimeout == Some(timers[i].handle) ==> timers[i].task.AutoStop?)
    && (scanTimeout.Some? ==> scanTimeout.value < nextHandle)
  }

  lemma PutKeepsDevicesWellFormed(roster: seq<RosterEntry>, devices: seq<Entry<StudentDevice>>, id: string, record: StudentDevice)
    requires DevicesWellFormed(roster, devices) && IsRosterRecord(roster, Entry(id, record))
    ensures DevicesWellFormed(roster, Put(devices, id, record))
  {
    var r := Put(devices, id, record);
    forall i | 0 <= i < |r| ensures IsRosterRecord(roster, r[i]) {
      assert r[i] == Entry(id, record) || (i < |devices| && r[i] == devices[i]);
    }
  }

  lemma ScheduleMockKeepsTimersWellFormed(roster: seq<RosterEntry>, timers: seq<Timer>, nextHandle: nat, now: nat, scanTimeout: Option<nat>, due: nat, id: string)
    requires TimersWellFormed(roster, timers, nextHandle, now, scanTimeout)
    requires now <= due && IsRosterId(roster, id)
    ensures TimersWellFormed(roster, timers + [Timer(nextHandle, due, MockEmit(id))], nextHandle + 1, now, scanTimeout)
  {
  }

  lemma ArmAutoStopKeepsTimersWellFormed(roster: seq<RosterEntry>, timers: seq<Timer>, nextHandle: nat, now: nat)
    requires TimersWellFormed(roster, timers, nextHandle, now, None)
    ensures TimersWellFormed(roster, timers + [Timer(nextHandle, now + ScanDuration, AutoStop)], nextHandle + 1, now, Some(nextHandle))
  {
  }

  lemma CancelKeepsTimersWellFormed(roster: seq<RosterEntry>, timers: seq<Timer>, nextHandle: nat, now: nat, handle: nat)
    requires TimersWellFormed(roster, timers, nextHandle, now, Some(handle))
    ensures TimersWellFormed(roster, Cancel(timers, handle), nextHandle, now, None)
  {
    var r := Cancel(timers, handle);
    CancelKeepsHandlesDistinct(timers, handle);
    forall i | 0 <= i < |r| ensures r[i] in timers && r[i].handle != handle {
      assert r[i] in r;
    }
  }

  lemma RemoveKeepsTimersWellFormed(roster: seq<RosterEntry>, timers: seq<Timer>, k: nat, nextHandle: nat, now: nat, scanTimeout: Option<nat>)
    requires k < |timers|
    requires TimersWellFormed(roster, timers, nextHandle, now, scanTimeout)
    requires forall j :: 0 <= j < |timers| ==> timers[k].due <= timers[j].due
    ensures TimersWellFormed(roster, timers[..k] + timers[k + 1..], nextHandle, timers[k].due, scanTimeout)
  {
    var r := timers[..k] + timers[k + 1..];
    assert forall i :: 0 <= i < |r| ==> r[i] == timers[if i < k then i else i + 1];
  }

  /** Clearing the auto-stop never drops a pending mock emission: the handle
      `scanTimeout` holds belongs to an auto-stop timer only. */
  lemma CancelKeepsMockEmissions(roster: seq<RosterEntry>, timers: seq<Timer>, nextHandle: nat, now: nat, handle: nat)
    requires TimersWellFormed(roster, timers, nextHandle, now, Some(handle))
    ensures forall x :: x in timers && x.task.MockEmit? ==> x in Cancel(timers, handle)
    ensures forall x :: x in Cancel(timers, handle) ==> x in timers && x.task.MockEmit?
  {
    forall x | x in timers && x.task.MockEmit? ensures x in Cancel(timers, handle) {
      var i :| 0 <= i < |timers| && timers[i] == x;
    }
  }

  /** With distinct handles, once timer `k` is removed no pending timer
      holds its handle any more. */
  lemma RemoveLeavesNoHolder(timers: seq<Timer>, k: nat, r: seq<Timer>)
    requires k < |timers| && HandlesDistinct(timers) && r == timers[..k] + timers[k + 1..]
    ensures forall i :: 0 <= i < |r| ==> r[i].handle != timers[k].handle
  {
    forall i | 0 <= i < |r| ensures r[i].handle != timers[k].handle {
      assert r[i] == timers[if i < k then i else i + 1];
    }
  }

  class AttendanceService {
    /** `STUDENT_MAPPING` */
    const roster: seq<RosterEntry>
    /** `devices`: the Map of detected students, in insertion order. */
    var devices: seq<Entry<StudentDevice>>
    var isScanning: bool
    /** The handle held in `scanTimeout`, if any. */
    var scanTimeout: Option<nat>
    var selectedDivision: Option<string>

    // The host: whether the plugin's LE scan is delivering results, the
    // pending `setTimeout` callbacks, the next handle, and the clock (ms).
    var leScanActive: bool
    var timers: seq<Timer>
    var nextHandle: nat
    var now: nat

    ghost predicate Valid()
      reads this
    {
      && IdsDistinct(roster)
      && DevicesWellFormed(roster, devices)
      && (scanTimeout.Some? ==> isScanning)
      && (leScanActive ==> isScanning)
      && TimersWellFormed(roster, timers, nextHandle, now, scanTimeout)
    }

    constructor ()
      ensures Valid() && roster == StudentMapping
      ensures devices == [] && !isScanning && scanTimeout == None && selectedDivision == None
      ensures !leScanActive && timers == [] && now == 0
    {
      roster := StudentMapping;
      StudentMappingIdsDistinct();
      devices := [];
      isScanning := false;
      scanTimeout := None;
      selectedDivision := None;
      leScanActive := false;
      timers := [];
      nextHandle := 0;
      now := 0;
    }

    /** Timer `k` is the one the host runs next: the earliest due, and among
        timers due at the same time the one scheduled first. */
    predicate IsNext(k: nat)
      reads this
    {
      && k < |timers|
      && (forall j :: 0 <= j < |timers| ==> timers[k].due <= timers[j].due)
      && (forall j :: 0 <= j < k ==> timers[k].due < timers[j].due)
    }

    method SetSelectedDivision(division: string)
      requires Valid()
      modifies this`selectedDivision
      ensures Valid() && selectedDivision == Some(division)
    {
      selectedDivision := Some(division);
    }

    /** `startScanning`. Already scanning: nothing changes. Otherwise the map
        is emptied and, when the LE scan starts, the session is scanning with a
        10 s auto-stop armed; when it throws, the session is idle and no timer
        is armed. Either way the mock emissions are scheduled. */
    method StartScanning(leScanOk: bool)
      requires Valid()
      modifies this
      ensures Valid()
      ensures old(isScanning) ==> unchanged(this)
      ensures !old(isScanning) ==>
        && devices == [] && isScanning == leScanOk && leScanActive == leScanOk
        && selectedDivision == old(selectedDivision) && now == old(now)
        && nextHandle == old(nextHandle) + (if leScanOk then 1 else 0) + |MockSelection(roster, selectedDivision)|
      ensures !old(isScanning) ==>
        && scanTimeout == (if leScanOk then Some(old(nextHandle)) else None)
        && timers == old(timers)
             + (if leScanOk then [Timer(old(nextHandle), now + ScanDuration, AutoStop)] else [])
             + MockSchedule(MockSelection(roster, selectedDivision), now, old(nextHandle) + (if leScanOk then 1 else 0))
    {
      if isScanning {
        return;
      }
      BeginSession(leScanOk);
      AddMockDevices();
    }

    /** The part of `startScanning` before the mock devices: the map is
        emptied, and the LE scan either starts, with the auto-stop armed, or
        throws and leaves the session idle. */
    method BeginSession(leScanOk: bool)
      requires Valid() && !isScanning
      modifies this`isScanning, this`devices, this`leScanActive, this`scanTimeout, this`timers, this`nextHandle
      ensures Valid() && devices == [] && isScanning == leScanOk && leScanActive == leScanOk
      ensures scanTimeout == if leScanOk then Some(old(nextHandle)) else None
      ensures timers == old(timers) + if leScanOk then [Timer(old(nextHandle), now + ScanDuration, AutoStop)] else []
      ensures nextHandle == old(nextHandle) + if leScanOk then 1 else 0
    {
      isScanning := true;
      devices := [];
      if leScanOk {
        leScanActive := true;
        ArmAutoStop();
      } else {
        isScanning := false;
        assert timers == timers + [];
      }
    }

    /** The LE scan has started: the 10 s auto-stop is armed under the next
        handle. */
    method ArmAutoStop()
      requires Valid() && isScanning && scanTimeout == None
      modifies this`scanTimeout, this`timers, this`nextHandle
      ensures Valid() && scanTimeout == Some(old(nextHandle)) && nextHandle == old(nextHandle) + 1
      ensures timers == old(timers) + [Timer(old(nextHandle), now + ScanDuration, AutoStop)]
    {
      ArmAutoStopKeepsTimersWellFormed(roster, timers, nextHandle, now);
      scanTimeout := Some(nextHandle);
      timers := timers + [Timer(nextHandle, now + ScanDuration, AutoStop)];
      nextHandle := nextHandle + 1;
    }

    /** `addMockDevices`: one timer per chosen student, the `index`-th due
        `(index + 1) * 1500` ms from now. */
    method AddMockDevices()
      requires TimersWellFormed(roster, timers, nextHandle, now, scanTimeout)
      modifies this`timers, this`nextHandle
      ensures TimersWellFormed(roster, timers, nextHandle, now, scanTimeout)
      ensures var mocks := MockSelection(roster, selectedDivision);
        && timers == old(timers) + MockSchedule(mocks, now, old(nextHandle))
        && nextHandle == old(nextHandle) + |mocks|
    {
      var mocks := MockSelection(roster, selectedDivision);
      ghost var schedule := MockSchedule(mocks, now, nextHandle);
      ghost var before := timers;
      for index := 0 to |mocks|
        invariant timers == before + schedule[..index]
        invariant nextHandle == old(nextHandle) + index
        invariant TimersWellFormed(roster, timers, nextHandle, now, scanTimeout)
      {
        assert schedule[index] == Timer(nextHandle, MockDue(now, index), MockEmit(mocks[index]));
        assert schedule[..index + 1] == schedule[..index] + [schedule[index]];
        MockSelectionInRoster(roster, selectedDivision, index);
        ScheduleMock(MockDue(now, index), mocks[index]);
      }
      assert schedule[..|mocks|] == schedule;
    }

    /** One `setTimeout` of `addMockDevices`: a mock emission of `id` due at
        `due`, under the next handle. */
    method ScheduleMock(due: nat, id: string)
      requires TimersWellFormed(roster, timers, nextHandle, now, scanTimeout)
      requires now <= due && IsRosterId(roster, id)
      modifies this`timers, this`nextHandle
      ensures TimersWellFormed(roster, timers, nextHandle, now, scanTimeout)
      ensures timers == old(timers) + [Timer(old(nextHandle), due, MockEmit(id))]
      ensures nextHandle == old(nextHandle) + 1
    {
      ScheduleMockKeepsTimersWellFormed(roster, timers, nextHandle, now, scanTimeout, due, id);
      timers := timers + [Timer(nextHandle, due, MockEmit(id))];
      nextHandle := nextHandle + 1;
    }

    /** `handleDeviceFound`, run by the LE scan for each result. */
    method HandleDeviceFound(result: ScanResult) returns (reported: Option<StudentDevice>)
      requires Valid() && leScanActive
      modifies this`devices
      ensures Valid()
      ensures !IsRosterId(roster, result.deviceId) ==> reported == None && devices == old(devices)
      ensures Has(old(devices), result.deviceId) ==> reported == None && devices == old(devices)
      ensures IsRosterId(roster, result.deviceId) &&
              !PassesFilter(selectedDivision, Lookup(roster, result.deviceId).value.division) ==>
                reported == None && devices == old(devices)
      ensures reported.Some? <==>
        && IsRosterId(roster, result.deviceId)
        && !Has(old(devices), result.deviceId)
        && PassesFilter(selectedDivision, Lookup(roster, result.deviceId).value.division)
      ensures reported.Some? ==>
        && reported.value == DeviceRecord(result.deviceId, Lookup(roster, result.deviceId).value, result.rssi, now)
        && devices == old(devices) + [Entry(result.deviceId, reported.value)]
        && PassesFilter(selectedDivision, reported.value.division)
      ensures AllPassFilter(selectedDivision, old(devices)) ==> AllPassFilter(selectedDivision, devices)
    {
      var deviceId := result.deviceId;
      var studentInfo := Lookup(roster, deviceId);
      reported := None;
      if studentInfo.Some? && !Has(devices, deviceId) {
        if FilterActive(selectedDivision) && studentInfo.value.division != selectedDivision.value {
          return;
        }
        var studentDevice := DeviceRecord(deviceId, studentInfo.value, result.rssi, now);
        PutKeepsDevicesWellFormed(roster, devices, deviceId, studentDevice);
        devices := Put(devices, deviceId, studentDevice);
        reported := Some(studentDevice);
      }
    }

    /** A mock emission fires: the record is set whatever the map holds (an
        earlier record for the same device is overwritten) and reported. It
        fires whether or not the session is still scanning. */
    method FireMockEmit(k: nat, draw: int) returns (reported: StudentDevice)
      requires Valid() && IsNext(k) && timers[k].task.MockEmit?
      requires 0 <= draw < RssiSpread
      modifies this`devices, this`timers, this`now
      ensures Valid()
      ensures now == old(timers[k].due)
      ensures timers == old(timers[..k] + timers[k + 1..])
      ensures var id := old(timers[k].task.deviceId);
        && IsRosterId(roster, id)
        && reported == DeviceRecord(id, Lookup(roster, id).value, Some(draw + RssiFloor), now)
        && devices == Put(old(devices), id, reported)
      ensures reported.rssi.Some? && RssiFloor <= reported.rssi.value <= RssiFloor + RssiSpread - 1
    {
      var deviceId := timers[k].task.deviceId;
      assert timers[k] in timers;
      RemoveKeepsTimersWellFormed(roster, timers, k, nextHandle, now, scanTimeout);
      now := timers[k].due;
      timers := timers[..k] + timers[k + 1..];
      var studentInfo := Lookup(roster, deviceId).value;
      reported := DeviceRecord(deviceId, studentInfo, Some(draw + RssiFloor), now);
      PutKeepsDevicesWellFormed(roster, devices, deviceId, reported);
      devices := Put(devices, deviceId, reported);
    }

    /** The auto-stop timer fires and runs `stopScanning`. */
    method FireAutoStop(k: nat, stopOk: bool)
      requires Valid() && IsNext(k) && timers[k].task.AutoStop?
      modifies this`isScanning, this`leScanActive, this`scanTimeout, this`timers, this`now
      ensures Valid()
      ensures now == old(timers[k].due) && devices == old(devices)
      ensures timers == old(timers[..k] + timers[k + 1..])
      ensures stopOk ==> !isScanning && !leScanActive && scanTimeout == None
      ensures !stopOk ==> isScanning && leScanActive == old(leScanActive) && scanTimeout == old(scanTimeout)
    {
      RemoveKeepsTimersWellFormed(roster, timers, k, nextHandle, now, scanTimeout);
      RemoveLeavesNoHolder(timers, k, timers[..k] + timers[k + 1..]);
      assert scanTimeout == Some(timers[k].handle);
      now := timers[k].due;
      timers := timers[..k] + timers[k + 1..];
      assert Cancel(timers, scanTimeout.value) == timers;
      StopScanning(stopOk);
    }

    /** `stopScanning`. Idle: nothing changes. When `stopLEScan` throws,
        nothing changes either: the session stays scanning. Otherwise the
        session is idle and the auto-stop timer is cleared; pending mock
        emissions are not. */
    method StopScanning(stopOk: bool)
      requires Valid()
      modifies this`isScanning, this`leScanActive, this`scanTimeout, this`timers
      ensures Valid()
      ensures !(old(isScanning) && stopOk) ==> unchanged(this)
      ensures old(isScanning) && stopOk ==>
        && !isScanning && !leScanActive && scanTimeout == None
        && timers == if old(scanTimeout).Some? then Cancel(old(timers), old(scanTimeout).value) else old(timers)
    {
      if !isScanning {
        return;
      }
      if stopOk {
        leScanActive := false;
        isScanning := false;
        if scanTimeout.Some? {
          CancelKeepsTimersWellFormed(roster, timers, nextHandle, now, scanTimeout.value);
          timers := Cancel(timers, scanTimeout.value);
          scanTimeout := None;
        }
      }
    }

    /** The clock moves on to `t` without any timer coming due before it. */
    method AdvanceClock(t: nat)
      requires Valid() && now <= t
      requires forall i :: 0 <= i < |timers| ==> t <= timers[i].due
      modifies this`now
      ensures Valid() && now == t
    {
      now := t;
    }

    /** `getDetectedStudents`: the records in insertion order; one per
        device, each a roster student's. */
    method GetDetectedStudents() returns (r: seq<StudentDevice>)
      requires Valid()
      ensures |r| == |devices| && forall i :: 0 <= i < |r| ==> r[i] == devices[i].value
      ensures forall i, j :: 0 <= i < j < |r| ==> r[i].id != r[j].id
      ensures forall i :: 0 <= i < |r| ==>
        Lookup(roster, r[i].id) == Some(StudentInfo(r[i].name, r[i].division))
    {
      r := Values(devices);
    }

    method IsCurrentlyScanning() returns (scanning: bool)
      ensures scanning == isScanning
    {
      scanning := isScanning;
    }
  }
}
