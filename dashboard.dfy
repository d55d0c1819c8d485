/**
 * The logic of `AttendanceDashboard`: the signal-strength badge, the
 * `setPresentStudents` updater that keeps the present list free of repeated
 * students, and the start and stop handlers that drive the service.
 */
module Dashboard {
  import opened Wrappers
  import opened OrderedMap
  import opened Roster
  import opened BluetoothService

  datatype Strength = Strong | Medium | Weak

  /** `getSignalStrength`: a missing or zero RSSI reads as medium; otherwise
      above -50 is strong, above -70 medium, and the rest weak. */
  function SignalStrength(rssi: Option<int>): (s: Strength)
    ensures rssi.None? || rssi.value == 0 ==> s == Medium
    ensures rssi.Some? && rssi.value != 0 ==>
      && (s == Strong <==> rssi.value > -50)
      && (s == Medium <==> -70 < rssi.value <= -50)
      && (s == Weak <==> rssi.value <= -70)
  {
    if rssi.None? || rssi.value == 0 then Medium
    else if rssi.value > -50 then Strong
    else if rssi.value > -70 then Medium
    else Weak
  }

  predicate IdsUnique(students: seq<StudentDevice>) {
    forall i, j :: 0 <= i < j < |students| ==> students[i].id != students[j].id
  }

  predicate Listed(students: seq<StudentDevice>, id: string) {
    exists i :: 0 <= i < |students| && students[i].id == id
  }

  /** The `prev => ...` updater: a device whose id is already listed leaves
      the list as it is; any other is appended. */
  function AddPresent(prev: seq<StudentDevice>, device: StudentDevice): (r: seq<StudentDevice>)
    ensures Listed(prev, device.id) ==> r == prev
    ensures !Listed(prev, device.id) ==> |r| == |prev| + 1 && r[..|prev|] == prev && r[|prev|] == device
    ensures IdsUnique(prev) ==> IdsUnique(r)
    ensures Listed(r, device.id)
  {
    if Listed(prev, device.id) then prev
    else
      var r := prev + [device];
      assert r[|prev|].id == device.id;
      r
  }

  /** The present list after the callback has run for each of `reports`, in
      order, starting from the empty list `handleStartAttendance` sets. */
  function PresentAfter(reports: seq<StudentDevice>): seq<StudentDevice> {
    if reports == [] then []
    else AddPresent(PresentAfter(reports[..|reports| - 1]), reports[|reports| - 1])
  }

  /** Appending a student lists its id and keeps the others. */
  lemma ListedAppend(students: seq<StudentDevice>, s: StudentDevice, id: string)
    ensures Listed(students + [s], id) <==> Listed(students, id) || s.id == id
  {
    var r := students + [s];
    if Listed(students, id) {
      var i :| 0 <= i < |students| && students[i].id == id;
      assert r[i] == students[i];
    }
    if s.id == id {
      assert r[|students|] == s;
    }
    if Listed(r, id) && s.id != id {
      var i :| 0 <= i < |r| && r[i].id == id;
      assert i < |students| && students[i] == r[i];
    }
  }

  /** An id is on the present list exactly when the service reported it. */
  lemma {:induction false} PresentAfterListsReported(reports: seq<StudentDevice>, id: string)
    ensures Listed(PresentAfter(reports), id) <==> Listed(reports, id)
  {
    if reports != [] {
      var n := |reports| - 1;
      var front, last := reports[..n], reports[n];
      assert reports == front + [last];
      PresentAfterListsReported(front, id);
      PresentAfterListsReported(front, last.id);
      ListedAppend(front, last, id);
      ListedAppend(PresentAfter(front), last, id);
    }
  }

  /** Whatever the service reports, repeats included, the present list holds
      one entry per id, and that entry is the first report of it. */
  lemma {:induction false} PresentAfterKeepsFirstReports(reports: seq<StudentDevice>)
    ensures IdsUnique(PresentAfter(reports))
    ensures forall e :: e in PresentAfter(reports) ==>
      exists i :: 0 <= i < |reports| && reports[i] == e && !Listed(reports[..i], e.id)
  {
    if reports != [] {
      var n := |reports| - 1;
      var front, last := reports[..n], reports[n];
      PresentAfterKeepsFirstReports(front);
      var prev := PresentAfter(front);
      var r := PresentAfter(reports);
      assert r == AddPresent(prev, last);
      forall e | e in r
        ensures exists i :: 0 <= i < |reports| && reports[i] == e && !Listed(reports[..i], e.id)
      {
        if e in prev {
          var i :| 0 <= i < |front| && front[i] == e && !Listed(front[..i], e.id);
          assert reports[i] == e && reports[..i] == front[..i];
        } else {
          assert e == last && !Listed(prev, last.id);
          PresentAfterListsReported(front, e.id);
          assert !Listed(front, e.id);
          assert reports[..n] == front;
        }
      }
    }
  }

  class AttendanceDashboard {
    var isScanning: bool
    var presentStudents: seq<StudentDevice>
    /** The clock reading when the last scan was started. */
    var scanStartTime: Option<nat>
    var selectedDivision: string
    /** The module-level `bluetoothService` instance. */
    const service: AttendanceService

    ghost predicate Valid()
      reads this, service
    {
      && service.Valid()
      && IdsUnique(presentStudents)
      && forall i :: 0 <= i < |presentStudents| ==> IsRosterStudent(service.roster, presentStudents[i])
    }

    constructor (service: AttendanceService)
      requires service.Valid()
      ensures Valid() && this.service == service
      ensures !isScanning && presentStudents == [] && scanStartTime == None && selectedDivision == ""
    {
      this.service := service;
      isScanning := false;
      presentStudents := [];
      scanStartTime := None;
      selectedDivision := "";
    }

    /** The division select's `onValueChange`. */
    method SelectDivision(division: string)
      modifies this`selectedDivision
      ensures selectedDivision == division
    {
      selectedDivision := division;
    }

    /** `handleStartAttendance`. With no division selected it refuses and
        changes nothing. Otherwise the dashboard is scanning with an empty
        present list, and the service gets the division before the scan
        starts. */
    method StartAttendance(leScanOk: bool) returns (started: bool)
      requires Valid()
      modifies this`isScanning, this`presentStudents, this`scanStartTime, service
      ensures Valid()
      ensures started <==> old(selectedDivision) != ""
      ensures !started ==> unchanged(this) && unchanged(service)
      ensures started ==>
        && isScanning && presentStudents == [] && scanStartTime == Some(old(service.now))
        && service.selectedDivision == Some(selectedDivision)
      ensures started && !old(service.isScanning) ==>
        && service.devices == [] && service.isScanning == leScanOk
        && service.scanTimeout == (if leScanOk then Some(old(service.nextHandle)) else None)
        && service.timers == old(service.timers)
             + (if leScanOk then [Timer(old(service.nextHandle), old(service.now) + ScanDuration, AutoStop)] else [])
             + MockSchedule(MockSelection(service.roster, Some(selectedDivision)), old(service.now),
                            old(service.nextHandle) + (if leScanOk then 1 else 0))
        && service.leScanActive == leScanOk && service.now == old(service.now)
        && service.nextHandle == old(service.nextHandle) + (if leScanOk then 1 else 0)
                                 + |MockSelection(service.roster, Some(selectedDivision))|
      ensures started && old(service.isScanning) ==>
        && service.devices == old(service.devices) && service.isScanning
        && service.timers == old(service.timers) && service.scanTimeout == old(service.scanTimeout)
        && service.now == old(service.now) && service.nextHandle == old(service.nextHandle)
        && service.leScanActive == old(service.leScanActive)
    {
      if selectedDivision == "" {
        return false;
      }
      isScanning := true;
      scanStartTime := Some(service.now);
      presentStudents := [];
      service.SetSelectedDivision(selectedDivision);
      service.StartScanning(leScanOk);
      started := true;
    }

    /** The callback handed to `startScanning`. */
    method OnDeviceFound(device: StudentDevice)
      requires Valid() && IsRosterStudent(service.roster, device)
      modifies this`presentStudents
      ensures Valid()
      ensures presentStudents == AddPresent(old(presentStudents), device)
    {
      presentStudents := AddPresent(presentStudents, device);
    }

    /** A result from the LE scan goes through the service's classification
        and, when it is reported, through the callback. */
    method ScanResultArrives(result: ScanResult) returns (reported: Option<StudentDevice>)
      requires Valid() && service.leScanActive
      modifies this`presentStudents, service`devices
      ensures Valid()
      ensures reported.None? ==> presentStudents == old(presentStudents)
      ensures reported.Some? ==> presentStudents == AddPresent(old(presentStudents), reported.value)
      ensures reported.Some? <==>
        && IsRosterId(service.roster, result.deviceId)
        && !Has(old(service.devices), result.deviceId)
        && PassesFilter(service.selectedDivision, Lookup(service.roster, result.deviceId).value.division)
      ensures reported.Some? ==>
        reported.value == DeviceRecord(result.deviceId, Lookup(service.roster, result.deviceId).value, result.rssi, service.now)
      ensures service.devices ==
        if reported.Some? then old(service.devices) + [Entry(result.deviceId, reported.value)] else old(service.devices)
    {
      reported := service.HandleDeviceFound(result);
      if reported.Some? {
        OnDeviceFound(reported.value);
      }
    }

    /** A mock emission reaches the callback unclassified; the updater's own
        check is what keeps a student from being listed twice. */
    method MockTimerFires(k: nat, draw: int) returns (reported: StudentDevice)
      requires Valid() && service.IsNext(k) && service.timers[k].task.MockEmit?
      requires 0 <= draw < RssiSpread
      modifies this`presentStudents, service`devices, service`timers, service`now
      ensures Valid()
      ensures presentStudents == AddPresent(old(presentStudents), reported)
      ensures service.now == old(service.timers[k].due)
      ensures service.timers == old(service.timers[..k] + service.timers[k + 1..])
      ensures var id := old(service.timers[k].task.deviceId);
        && reported == DeviceRecord(id, Lookup(service.roster, id).value, Some(draw + RssiFloor), service.now)
        && service.devices == Put(old(service.devices), id, reported)
    {
      reported := service.FireMockEmit(k, draw);
      OnDeviceFound(reported);
    }

    /** `handleStopScanning`: the service is asked to stop and the dashboard
        shows idle whether or not the stop succeeded. */
    method StopScanning(stopOk: bool)
      requires Valid()
      modifies this`isScanning, service`isScanning, service`leScanActive, service`scanTimeout, service`timers
      ensures Valid()
      ensures !isScanning && presentStudents == old(presentStudents)
      ensures service.isScanning == (old(service.isScanning) && !stopOk)
      ensures !(old(service.isScanning) && stopOk) ==>
        && service.timers == old(service.timers) && service.scanTimeout == old(service.scanTimeout)
        && service.leScanActive == old(service.leScanActive)
      ensures old(service.isScanning) && stopOk ==>
        && service.scanTimeout == None
        && service.timers == if old(service.scanTimeout).Some? then Cancel(old(service.timers), old(service.scanTimeout).value)
                             else old(service.timers)
    {
      service.StopScanning(stopOk);
      isScanning := false;
    }
  }
}
