/**
 * The fixed table that maps a device identifier to a student
 * (`STUDENT_MAPPING`) and the list of divisions offered to the operator
 * (`getAvailableDivisions`).
 */
module Roster {
  import opened Wrappers
  import opened StringSort

  datatype StudentInfo = StudentInfo(name: string, division: string)

  /** One `[deviceId, studentInfo]` pair of `Object.entries(STUDENT_MAPPING)`. */
  datatype RosterEntry = RosterEntry(deviceId: string, info: StudentInfo)

  /** The entries in the order the object literal lists them (none of the keys
      is an integer index, so `Object.entries` keeps that order). */
  const StudentMapping: seq<RosterEntry> := [
    RosterEntry("12:34:56:78:90:AB", StudentInfo("Emma Johnson", "Computer Science A")),
    RosterEntry("AA:BB:CC:DD:EE:FF", StudentInfo("Liam Smith", "Computer Science A")),
    RosterEntry("11:22:33:44:55:66", StudentInfo("Olivia Davis", "Computer Science A")),
    RosterEntry("77:88:99:00:11:22", StudentInfo("Noah Wilson", "Computer Science A")),
    RosterEntry("FF:EE:DD:CC:BB:AA", StudentInfo("Ava Brown", "Computer Science B")),
    RosterEntry("33:44:55:66:77:88", StudentInfo("William Jones", "Computer Science B")),
    RosterEntry("99:88:77:66:55:44", StudentInfo("Sophia Garcia", "Computer Science B")),
    RosterEntry("BB:CC:DD:EE:FF:00", StudentInfo("James Miller", "Computer Science B")),
    RosterEntry("00:11:22:33:44:55", StudentInfo("Isabella Chen", "Information Technology A")),
    RosterEntry("55:66:77:88:99:AA", StudentInfo("Alexander Lee", "Information Technology A")),
    RosterEntry("CC:DD:EE:FF:00:11", StudentInfo("Mia Rodriguez", "Information Technology B")),
    RosterEntry("22:33:44:55:66:77", StudentInfo("Ethan Taylor", "Information Technology B"))
  ]

  /** An object literal has each key once. */
  predicate IdsDistinct(t: seq<RosterEntry>) {
    forall i, j :: 0 <= i < j < |t| ==> t[i].deviceId != t[j].deviceId
  }

  predicate IsRosterId(t: seq<RosterEntry>, id: string) {
    exists i :: 0 <= i < |t| && t[i].deviceId == id
  }

  /** `STUDENT_MAPPING[id]`, `undefined` when the device is not a student's. */
  function Lookup(t: seq<RosterEntry>, id: string): (r: Option<StudentInfo>)
    ensures r.None? <==> !IsRosterId(t, id)
    ensures r.Some? ==> exists i :: 0 <= i < |t| && t[i] == RosterEntry(id, r.value)
  {
    if t == [] then None
    else if t[0].deviceId == id then Some(t[0].info)
    else
      var r := Lookup(t[1..], id);
      assert IsRosterId(t[1..], id) ==> IsRosterId(t, id) by {
        if IsRosterId(t[1..], id) {
          var i :| 0 <= i < |t[1..]| && t[1..][i].deviceId == id;
          assert t[i + 1].deviceId == id;
        }
      }
      assert IsRosterId(t, id) ==> IsRosterId(t[1..], id) by {
        if IsRosterId(t, id) {
          var i :| 0 <= i < |t| && t[i].deviceId == id;
          assert t[1..][i - 1].deviceId == id;
        }
      }
      assert r.Some? ==> exists i :: 0 <= i < |t| && t[i] == RosterEntry(id, r.value) by {
        if r.Some? {
          var i :| 0 <= i < |t[1..]| && t[1..][i] == RosterEntry(id, r.value);
          assert t[i + 1] == RosterEntry(id, r.value);
        }
      }
      r
  }

  /** With distinct keys, the lookup of an entry's key finds that entry. */
  lemma {:induction false} LookupEntry(t: seq<RosterEntry>, i: int)
    requires IdsDistinct(t) && 0 <= i < |t|
    ensures Lookup(t, t[i].deviceId) == Some(t[i].info)
  {
    var r := Lookup(t, t[i].deviceId);
    var j :| 0 <= j < |t| && t[j] == RosterEntry(t[i].deviceId, r.value);
    assert i == j;
  }

  /** `Object.values(STUDENT_MAPPING).map(student => student.division)` */
  function DivisionColumn(t: seq<RosterEntry>): (r: seq<string>)
    ensures |r| == |t| && forall i :: 0 <= i < |t| ==> r[i] == t[i].info.division
  {
    seq(|t|, i requires 0 <= i < |t| => t[i].info.division)
  }

  predicate IsDivisionOf(t: seq<RosterEntry>, d: string) {
    exists i :: 0 <= i < |t| && t[i].info.division == d
  }

  /** `getAvailableDivisions`: `[...new Set(divisions)].sort()`. The result is
      strictly ascending and holds exactly the divisions of the table. */
  function AvailableDivisions(t: seq<RosterEntry>): (r: seq<string>)
    ensures StrictlyAscending(r)
    ensures forall d :: d in r <==> IsDivisionOf(t, d)
  {
    var column := DivisionColumn(t);
    var distinct := Dedup(column);
    var r := Sort(distinct);
    PermutationKeepsNoDuplicates(distinct, r);
    AscendingDistinctIsStrict(r);
    forall d ensures d in r <==> d in column {
      assert d in r <==> d in multiset(r);
      assert d in distinct <==> d in multiset(distinct);
    }
    forall d | d in column ensures IsDivisionOf(t, d) {
      var i :| 0 <= i < |column| && column[i] == d;
      assert t[i].info.division == d;
    }
    forall d | IsDivisionOf(t, d) ensures d in column {
      var i :| 0 <= i < |t| && t[i].info.division == d;
      assert column[i] == d;
    }
    r
  }

  lemma StudentMappingIdsDistinct()
    ensures IdsDistinct(StudentMapping)
  {
  }

  const ExpectedDivisions: seq<string> :=
    ["Computer Science A", "Computer Science B", "Information Technology A", "Information Technology B"]

  lemma ComputerScienceOrder()
    ensures Less("Computer Science A", "Computer Science B")
  {
    LessPrefix("Computer Science ", "A", "B");
    assert "Computer Science A" == "Computer Science " + "A";
    assert "Computer Science B" == "Computer Science " + "B";
  }

  lemma InformationTechnologyOrder()
    ensures Less("Information Technology A", "Information Technology B")
  {
    LessPrefix("Information Technology ", "A", "B");
    assert "Information Technology A" == "Information Technology " + "A";
    assert "Information Technology B" == "Information Technology " + "B";
  }

  lemma SubjectOrder()
    ensures Less("Computer Science B", "Information Technology A")
  {
  }

  lemma ExpectedDivisionsAscend()
    ensures StrictlyAscending(ExpectedDivisions)
  {
    var e := ExpectedDivisions;
    forall i | 0 <= i < |e| - 1 ensures Less(e[i], e[i + 1]) {
      if i == 0 {
        ComputerScienceOrder();
      } else if i == 1 {
        SubjectOrder();
      } else {
        InformationTechnologyOrder();
      }
    }
    StrictFromNeighbours(e);
  }

  lemma ExpectedDivisionsOccur(d: string)
    ensures IsDivisionOf(StudentMapping, d) <==> d in ExpectedDivisions
  {
    if d in ExpectedDivisions {
      var k :| 0 <= k < 4 && ExpectedDivisions[k] == d;
      assert StudentMapping[[0, 4, 8, 10][k]].info.division == d;
    }
    if IsDivisionOf(StudentMapping, d) {
      var i :| 0 <= i < |StudentMapping| && StudentMapping[i].info.division == d;
      assert ExpectedDivisions[if i < 8 then i / 4 else (i - 8) / 2 + 2] == d;
    }
  }

  /** What the operator is offered for the table above: its four divisions,
      in ascending order. */
  lemma {:induction false} StudentMappingDivisions()
    ensures AvailableDivisions(StudentMapping) == ExpectedDivisions
  {
    var r := AvailableDivisions(StudentMapping);
    ExpectedDivisionsAscend();
    forall d ensures d in r <==> d in ExpectedDivisions {
      ExpectedDivisionsOccur(d);
    }
    StrictlyAscendingUnique(r, ExpectedDivisions);
  }
}
