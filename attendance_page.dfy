/**
 * app/attendance/page.tsx: the attendance screen's list of records.  Loading a
 * class keeps its active students and starts every one of them as Present;
 * statuses already saved for the day are merged in; a click toggles one
 * student; saving sends the list to POST /api/attendance; the summary counts
 * the students present and rounds their share to a whole percentage.
 */
module AttendancePage {
  import opened Wrappers
  import opened Seqs
  import opened Types
  import opened Tables
  import opened AttendanceRoute

  /** A row of the page's `attendanceRecords` (it has no id yet). */
  datatype PageRecord = PageRecord(studentId: nat, studentName: string, className: string, date: string,
                                   status: AttendanceStatus)

  predicate IsActive(s: StudentRow) {
    s.status == Active
  }

  /** `data.filter((s) => s.status === 'Active')` */
  function ActiveStudents(data: seq<StudentRow>): (r: seq<StudentRow>)
    ensures forall k :: 0 <= k < |r| ==> r[k] in data && r[k].status == Active
    ensures forall k :: 0 <= k < |data| && data[k].status == Active ==> data[k] in r
    ensures SelectsInOrder(data, r, IsActive)
  {
    FilterInOrder(data, IsActive);
    Filter(data, IsActive)
  }

  /** One record per active student, in the same order, marked Present for the selected class and date. */
  function InitialRecords(active: seq<StudentRow>, c: string, d: string): (r: seq<PageRecord>)
    ensures |r| == |active|
    ensures forall k :: 0 <= k < |r| ==>
              r[k].studentId == active[k].id && r[k].studentName == active[k].name &&
              r[k].className == c && r[k].date == d && r[k].status == Present
  {
    seq(|active|, k requires 0 <= k < |active| => PageRecord(active[k].id, active[k].name, c, d, Present))
  }

  /** Each record takes the status of the first fetched row for its student, if there is one. */
  function MergeStatuses(current: seq<PageRecord>, data: seq<AttendanceRow>): (r: seq<PageRecord>)
    ensures |r| == |current|
    ensures forall k :: 0 <= k < |r| ==> r[k].(status := current[k].status) == current[k]
    ensures forall k :: 0 <= k < |r| && (forall j :: 0 <= j < |data| ==> data[j].studentId != current[k].studentId)
              ==> r[k] == current[k]
    ensures forall k, j :: 0 <= k < |r| && 0 <= j < |data| && data[j].studentId == current[k].studentId &&
              (forall i :: 0 <= i < j ==> data[i].studentId != current[k].studentId)
              ==> r[k].status == data[j].status
  {
    seq(|current|, k requires 0 <= k < |current| =>
      match Find(data, (a: AttendanceRow) => a.studentId == current[k].studentId)
      case Some(existing) => current[k].(status := existing.status)
      case None => current[k])
  }

  function Flip(s: AttendanceStatus): AttendanceStatus {
    if s == Present then Absent else Present
  }

  /** `toggleAttendance`: flips the records of `sid` between Present and Absent. */
  function Toggle(records: seq<PageRecord>, sid: nat): (r: seq<PageRecord>)
    ensures |r| == |records|
    ensures forall k :: 0 <= k < |r| && records[k].studentId != sid ==> r[k] == records[k]
    ensures forall k :: 0 <= k < |r| && records[k].studentId == sid ==>
              r[k].(status := records[k].status) == records[k] && r[k].status != records[k].status
  {
    seq(|records|, k requires 0 <= k < |records| =>
      if records[k].studentId == sid then records[k].(status := Flip(records[k].status)) else records[k])
  }

  /** Toggling the same student twice gives back the list. */
  lemma ToggleTwice(records: seq<PageRecord>, sid: nat)
    ensures Toggle(Toggle(records, sid), sid) == records
  {
  }

  predicate IsPresent(r: PageRecord) {
    r.status == Present
  }

  /** The Present records kept are as many as the positions holding one. */
  lemma PresentFilterCount(records: seq<PageRecord>)
    ensures |Filter(records, IsPresent)| == |set k | 0 <= k < |records| && records[k].status == Present|
  {
    FilterCount(records, IsPresent);
    assert Positions(records, IsPresent) ==
           (set k | 0 <= k < |records| && records[k].status == Present);
  }

  /** `attendanceRecords.filter(a => a.status === 'Present').length` */
  function PresentCount(records: seq<PageRecord>): (n: nat)
    ensures n <= |records|
    ensures n == |records| <==> forall k :: 0 <= k < |records| ==> records[k].status == Present
    ensures n == |set k | 0 <= k < |records| && records[k].status == Present|
  {
    FilterKeepsAll(records, IsPresent);
    PresentFilterCount(records);
    |Filter(records, IsPresent)|
  }

  /**
   * `Math.round(present / total * 100)`, on exact rationals: the nearest whole
   * percentage, halves rounding up; 0 when there are no records.
   */
  function Percentage(present: nat, total: nat): (r: int)
    ensures total == 0 ==> r == 0
    ensures total > 0 ==> 2 * total * r - total <= 200 * present < 2 * total * r + total
    ensures present <= total ==> 0 <= r <= 100
  {
    if total == 0 then 0
    else
      var r := (200 * present + total) / (2 * total);
      RoundedShare(present, total, r);
      r
  }

  /** The quotient that rounds `present / total` to a percentage lies within half a point, and in 0..100. */
  lemma RoundedShare(present: nat, total: nat, r: int)
    requires total > 0 && r == (200 * present + total) / (2 * total)
    ensures 2 * total * r - total <= 200 * present < 2 * total * r + total
    ensures present <= total ==> 0 <= r <= 100
  {
    var d := 2 * total;
    var n := 200 * present + total;
    assert d * r <= n < d * r + d by {
      Bracket(n, d);
    }
    if r < 0 {
      ScaleLeq(d, r, -1);
    }
    if present <= total && r > 100 {
      ScaleLeq(d, 101, r);
    }
  }

  lemma Bracket(n: int, d: int)
    requires d > 0
    ensures d * (n / d) <= n < d * (n / d) + d
  {
  }

  lemma ScaleLeq(d: int, a: int, b: int)
    requires d > 0 && a <= b
    ensures d * a <= d * b
  {
  }

  // ---------------------------------------------------------------------
  // Saving.

  datatype SaveBlocked = NoClassSelected | NoRecords

  /** What the page posts for one record. */
  function ToInput(r: PageRecord): RecordInput {
    RecordInput(r.studentId, r.studentName, AttendanceStatusName(r.status))
  }

  /** `handleSaveAttendance`'s guards, class first, and the body it posts when they pass. */
  function SaveRequestOf(selectedClass: string, selectedDate: string, records: seq<PageRecord>)
    : (r: Result<SaveRequest, SaveBlocked>)
    ensures selectedClass == [] <==> r == Err(NoClassSelected)
    ensures selectedClass != [] && records == [] <==> r == Err(NoRecords)
    ensures r.Ok? ==> r.value.className == Some(selectedClass) && r.value.date == Some(selectedDate) &&
                      r.value.records.Some? && |r.value.records.value| == |records| &&
                      forall k :: 0 <= k < |records| ==> r.value.records.value[k] == ToInput(records[k])
  {
    if selectedClass == [] then Err(NoClassSelected)
    else if |records| == 0 then Err(NoRecords)
    else Ok(SaveRequest(Some(selectedClass), Some(selectedDate),
                        Some(seq(|records|, k requires 0 <= k < |records| => ToInput(records[k])))))
  }

  /**
   * Freshly initialised records pass every check of POST /api/attendance when the
   * students shown are enrolled in the selected class: each status sent is a
   * valid one and each student is in the class.
   */
  lemma InitialRecordsPass(data: seq<StudentRow>, students: seq<StudentRow>, c: string, d: string)
    requires c != []
    requires forall k :: 0 <= k < |data| ==> data[k] in students && data[k].className == c
    requires ActiveStudents(data) != []
    ensures var req := SaveRequestOf(c, d, InitialRecords(ActiveStudents(data), c, d));
      req.Ok? && FirstInvalid(students, c, req.value.records.value) == None
  {
    var active := ActiveStudents(data);
    var recs := InitialRecords(active, c, d);
    var req := SaveRequestOf(c, d, recs);
    var inputs := req.value.records.value;
    forall k | 0 <= k < |inputs|
      ensures CheckRecord(students, c, inputs[k]).Ok?
    {
      var j :| 0 <= j < |students| && students[j] == active[k];
    }
    FirstInvalidNone(students, c, inputs);
  }

  /** The screen's list state: the active students shown and their records. */
  class AttendanceView {
    var selectedClass: string
    var selectedDate: string
    var students: seq<StudentRow>
    var records: seq<PageRecord>

    constructor (today: string)
      ensures selectedClass == [] && selectedDate == today && students == [] && records == []
    {
      selectedClass, selectedDate := [], today;
      students, records := [], [];
    }

    /**
     * The effect run when the class or date changes, with the two responses as
     * parameters (`fetched` or `existing` is `None` when that fetch fails) and the
     * merge applied after the students fetch.  With no class selected both lists
     * are emptied.  A failed students fetch leaves both lists as they were, so a
     * merge then applies to the records already shown.
     */
    method Refresh(fetched: Option<seq<StudentRow>>, existing: Option<seq<AttendanceRow>>)
      modifies this
      ensures selectedClass == old(selectedClass) && selectedDate == old(selectedDate)
      ensures selectedClass == [] ==> students == [] && records == []
      ensures selectedClass != [] && fetched.Some? ==> students == ActiveStudents(fetched.value)
      ensures selectedClass != [] && fetched.None? ==> students == old(students)
      ensures selectedClass != [] ==>
                var base := if fetched.Some? then InitialRecords(students, selectedClass, selectedDate)
                            else old(records);
                records == if selectedDate != [] && existing.Some? && existing.value != []
                           then MergeStatuses(base, existing.value)
                           else base
    {
      if selectedClass == [] {
        students, records := [], [];
        return;
      }
      if fetched.Some? {
        var active := ActiveStudents(fetched.value);
        students := active;
        records := InitialRecords(active, selectedClass, selectedDate);
      }
      if selectedDate != [] && existing.Some? && |existing.value| > 0 {
        records := MergeStatuses(records, existing.value);
      }
    }

    /** `toggleAttendance` */
    method ToggleStudent(sid: nat)
      modifies this
      ensures records == Toggle(old(records), sid)
      ensures selectedClass == old(selectedClass) && selectedDate == old(selectedDate) && students == old(students)
    {
      records := Toggle(records, sid);
    }
  }
}
