/**
 * Two runs of the service on the real table: a fallback run whose LE scan
 * fails, and a run in which a stopped session's mock emission lands in the
 * next session.
 */
module Scenarios {
  import opened Wrappers
  import opened OrderedMap
  import opened Roster
  import opened BluetoothService

  const ComputerScienceA: string := "Computer Science A"
  const ComputerScienceB: string := "Computer Science B"

  /** The first four table entries are the "Computer Science A" students. */
  lemma ComputerScienceAFirst(t: seq<RosterEntry>)
    requires t == StudentMapping
    ensures |t| >= MockLimit
    ensures forall k :: 0 <= k < MockLimit ==> t[k].info.division == ComputerScienceA
  {
  }

  /** The `n`-th of the four mock emissions of a run started at `start`
      fires: the service records table entry `n`. */
  /** With the four leading entries chosen, the `n`-th emission heads what
      is left of the schedule from `n` on: it is for entry `n`, due no later
      than the rest, and removing it leaves the schedule from `n + 1` on. */
  lemma NextMock(t: seq<RosterEntry>, division: string, start: nat, first: nat, n: nat)
    requires IdsDistinct(t) && n < MockLimit <= |t|
    requires MockPositions(t, Some(division)) == [0, 1, 2, 3]
    ensures var rest := MockSchedule(MockSelection(t, Some(division)), start, first)[n..];
      && rest[0] == Timer(first + n, MockDue(start, n), MockEmit(t[n].deviceId))
      && (forall j :: 0 <= j < |rest| ==> rest[0].due <= rest[j].due)
      && rest[..0] + rest[1..] == MockSchedule(MockSelection(t, Some(division)), start, first)[n + 1..]
      && Lookup(t, t[n].deviceId) == Some(t[n].info)
  {
    var ids := MockSelection(t, Some(division));
    MockSelectionIds(t, Some(division));
    assert ids[n] == t[n].deviceId;
    var rest := MockSchedule(ids, start, first)[n..];
    forall j | 0 <= j < |rest| ensures rest[0].due <= rest[j].due {
      assert rest[j] == MockSchedule(ids, start, first)[n + j];
    }
    LookupEntry(t, n);
  }

  method FireNextMock(service: AttendanceService, t: seq<RosterEntry>, division: string, start: nat, first: nat, n: nat)
    returns (d: StudentDevice)
    requires service.Valid() && service.roster == t && n < MockLimit <= |t|
    requires MockPositions(t, Some(division)) == [0, 1, 2, 3]
    requires service.timers == MockSchedule(MockSelection(t, Some(division)), start, first)[n..]
    requires service.now == if n == 0 then start else MockDue(start, n - 1)
    modifies service`devices, service`timers, service`now
    ensures service.Valid()
    ensures service.timers == MockSchedule(MockSelection(t, Some(division)), start, first)[n + 1..]
    ensures service.now == MockDue(start, n)
    ensures d == DeviceRecord(t[n].deviceId, t[n].info, Some(RssiFloor), MockDue(start, n))
  {
    NextMock(t, division, start, first, n);
    d := service.FireMockEmit(0, 0);
  }

  /** The operator selects `division` and starts a session whose LE scan
      fails: the session is idle at once, and the four leading entries of the
      table are scheduled, handles from the next free one. */
  method FallbackStart(service: AttendanceService, division: string) returns (start: nat, first: nat)
    requires service.Valid() && !service.isScanning && service.timers == []
    requires division != ""
    requires |service.roster| >= MockLimit
    requires forall k :: 0 <= k < MockLimit ==> service.roster[k].info.division == division
    modifies service
    ensures service.Valid() && !service.isScanning && service.selectedDivision == Some(division)
    ensures start == service.now == old(service.now)
    ensures first == old(service.nextHandle)
    ensures MockPositions(service.roster, Some(division)) == [0, 1, 2, 3]
    ensures service.timers == MockSchedule(MockSelection(service.roster, Some(division)), start, first)
  {
    start := service.now;
    first := service.nextHandle;
    service.SetSelectedDivision(division);
    service.StartScanning(false);
    LeadingEntriesMatch(service.roster, Some(division));
  }

  /** The four pending mock emissions of a run started at `start` fire in
      turn: table entries 0 to 3 are recorded, 1.5 s apart. */
  method FireMocks(service: AttendanceService, t: seq<RosterEntry>, division: string, start: nat, first: nat)
    returns (found: seq<StudentDevice>)
    requires service.Valid() && service.roster == t && MockLimit <= |t|
    requires MockPositions(t, Some(division)) == [0, 1, 2, 3]
    requires service.timers == MockSchedule(MockSelection(t, Some(division)), start, first)
    requires service.now == start
    modifies service`devices, service`timers, service`now
    ensures service.Valid() && service.timers == [] && service.now == MockDue(start, MockLimit - 1)
    ensures |found| == MockLimit
    ensures forall i :: 0 <= i < MockLimit ==>
      found[i] == DeviceRecord(t[i].deviceId, t[i].info, Some(RssiFloor), MockDue(start, i))
  {
    ghost var schedule := MockSchedule(MockSelection(t, Some(division)), start, first);
    assert schedule[0..] == schedule;
    found := [];
    var n := 0;
    while n < MockLimit
      invariant 0 <= n <= MockLimit
      invariant service.Valid() && service.roster == t
      invariant service.now == if n == 0 then start else MockDue(start, n - 1)
      invariant service.timers == schedule[n..]
      invariant |found| == n
      invariant forall i :: 0 <= i < n ==>
        found[i] == DeviceRecord(t[i].deviceId, t[i].info, Some(RssiFloor), MockDue(start, i))
    {
      var d := FireNextMock(service, t, division, start, first, n);
      found := found + [d];
      n := n + 1;
    }
  }

  /** A session whose LE scan fails, on a table whose first four entries are
      of the selected division: the session is idle at once, and those four
      students arrive 1.5 s apart, in table order. */
  method FallbackRun(service: AttendanceService, division: string) returns (found: seq<StudentDevice>)
    requires service.Valid() && !service.isScanning && service.timers == []
    requires division != ""
    requires |service.roster| >= MockLimit
    requires forall k :: 0 <= k < MockLimit ==> service.roster[k].info.division == division
    modifies service
    ensures service.Valid() && !service.isScanning && service.selectedDivision == Some(division)
    ensures service.timers == [] && service.now == MockDue(old(service.now), MockLimit - 1)
    ensures |found| == MockLimit
    ensures forall i :: 0 <= i < MockLimit ==>
      found[i] == DeviceRecord(service.roster[i].deviceId, service.roster[i].info, Some(RssiFloor),
                               MockDue(old(service.now), i))
  {
    var start, first := FallbackStart(service, division);
    found := FireMocks(service, service.roster, division, start, first);
  }

  /** The fallback run on the real table with "Computer Science A". */
  method FallbackSession() returns (service: AttendanceService, found: seq<StudentDevice>)
    ensures !service.isScanning && service.now == 6000 && service.timers == []
    ensures |found| == MockLimit
    ensures forall i :: 0 <= i < MockLimit ==>
      && found[i].id == StudentMapping[i].deviceId
      && found[i].name == StudentMapping[i].info.name
      && found[i].division == ComputerScienceA
      && found[i].timestamp == 1500 * (i + 1)
  {
    service := new AttendanceService();
    ComputerScienceAFirst(service.roster);
    found := FallbackRun(service, ComputerScienceA);
  }

  /** The operator starts a session on `division` and the LE scan starts:
      the auto-stop comes first in the queue, the mock emissions after it. */
  method StartOnLe(service: AttendanceService, division: string) returns (first: nat)
    requires service.Valid() && !service.isScanning && service.timers == []
    modifies service
    ensures service.Valid() && service.isScanning && service.now == old(service.now)
    ensures first == old(service.nextHandle) && service.scanTimeout == Some(first)
    ensures service.timers == [Timer(first, service.now + ScanDuration, AutoStop)]
      + MockSchedule(MockSelection(service.roster, Some(division)), service.now, first + 1)
  {
    first := service.nextHandle;
    service.SetSelectedDivision(division);
    service.StartScanning(true);
    var autoStop := Timer(first, service.now + ScanDuration, AutoStop);
    var mocks := MockSchedule(MockSelection(service.roster, service.selectedDivision), service.now, first + 1);
    assert service.selectedDivision == Some(division);
    assert service.timers == [] + [autoStop] + mocks;
    assert [] + [autoStop] == [autoStop];
  }

  /** The operator starts a session on `division` and stops it at once: the
      auto-stop is cancelled, the mock emissions stay pending. */
  method StartAndStop(service: AttendanceService, division: string) returns (first: nat)
    requires service.Valid() && !service.isScanning && service.timers == []
    modifies service
    ensures service.Valid() && !service.isScanning && service.now == old(service.now)
    ensures first == old(service.nextHandle)
    ensures service.timers == MockSchedule(MockSelection(service.roster, Some(division)), service.now, first + 1)
  {
    first := StartOnLe(service, division);
    var mocks := MockSchedule(MockSelection(service.roster, Some(division)), service.now, first + 1);
    CancelLeadingTimer(Timer(first, service.now + ScanDuration, AutoStop), mocks);
    service.StopScanning(true);
  }

  /** Cancelling the first of a run of timers whose later handles all differ
      from it leaves the later ones. */
  lemma CancelLeadingTimer(head: Timer, rest: seq<Timer>)
    requires forall i :: 0 <= i < |rest| ==> rest[i].handle != head.handle
    ensures Cancel([head] + rest, head.handle) == rest
  {
    CancelAppend([head], rest, head.handle);
    assert [head][1..] == [];
  }

  /** No emission of a schedule comes due before its first one. */
  lemma DuesFrom(ids: seq<string>, at: nat, first: nat)
    ensures var r := MockSchedule(ids, at, first);
      forall j :: 0 <= j < |r| ==> MockDue(at, 0) <= r[j].due
  {
  }

  /** The earliest pending timer emits table entry `i` into an empty map. */
  method FireFirstEmission(service: AttendanceService, t: seq<RosterEntry>, i: nat) returns (d: StudentDevice)
    requires service.Valid() && service.roster == t && i < |t| && service.devices == []
    requires service.IsNext(0) && service.timers[0].task == MockEmit(t[i].deviceId)
    modifies service`devices, service`timers, service`now
    ensures service.devices == [Entry(d.id, d)]
    ensures d.id == t[i].deviceId && d.division == t[i].info.division
  {
    LookupEntry(t, i);
    d := service.FireMockEmit(0, 0);
  }

  /** A session on division `a` is stopped at once by the operator, and a new
      one is started on division `b`. The mock emissions of the first session
      were never cancelled, so the first of them lands in the new session: a
      student of `a` is recorded while the filter admits only `b`. */
  method StaleMockRun(service: AttendanceService, a: string, b: string) returns (stale: StudentDevice)
    requires service.Valid() && !service.isScanning && service.timers == []
    requires a != "" && b != "" && a != b
    requires |service.roster| >= MockLimit
    requires forall k :: 0 <= k < MockLimit ==> service.roster[k].info.division == a
    modifies service
    ensures service.isScanning && service.selectedDivision == Some(b)
    ensures service.devices == [Entry(stale.id, stale)]
    ensures stale.id == service.roster[0].deviceId && stale.division == a
    ensures !PassesFilter(service.selectedDivision, stale.division)
  {
    var t := service.roster;
    var start := service.now;
    var first := StartAndStop(service, a);
    LeadingEntriesMatch(t, Some(a));
    assert service.timers[0] == Timer(first + 1, MockDue(start, 0), MockEmit(t[0].deviceId)) by {
      assert MockSelection(t, Some(a))[0] == t[0].deviceId;
    }
    ghost var pending := service.timers;
    ghost var h := service.nextHandle;
    service.SetSelectedDivision(b);
    service.StartScanning(true);
    DuesFrom(MockSelection(t, Some(a)), start, first + 1);
    DuesFrom(MockSelection(t, Some(b)), start, h + 1);
    assert service.IsNext(0);
    stale := FireFirstEmission(service, t, 0);
  }

  /** The stale emission on the real table: Emma Johnson of "Computer Science
      A" is recorded in a "Computer Science B" session. */
  method StaleMockSession() returns (service: AttendanceService, stale: StudentDevice)
    ensures service.isScanning && service.selectedDivision == Some(ComputerScienceB)
    ensures service.devices == [Entry(stale.id, stale)]
    ensures stale.id == StudentMapping[0].deviceId && stale.division == ComputerScienceA
  {
    service := new AttendanceService();
    ComputerScienceAFirst(service.roster);
    stale := StaleMockRun(service, ComputerScienceA, ComputerScienceB);
  }
}
