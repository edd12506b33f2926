/**
 * Column resolution (getColumns) and row extraction (GetCourses) of the
 * Workday "View My Courses" sheet, whose rows arrive as sequences of cells.
 */
module Schedule {
  import opened Results
  import opened GoStrings

  const MeetingCol := "Meeting Patterns"
  const DescCol := "Course Listing"
  const StartDateCol := "Start Date"
  const EndDateCol := "End Date"
  const InstructorCol := "Instructor"

  /** One row of the schedule table. */
  datatype Course = Course(description: string, meeting: string, startDate: string, endDate: string)

  /**
   * The column indices getColumns finds, with the row the data starts at;
   * Instructor is the one column that may be absent.
   */
  datatype Columns = Columns(meeting: nat, description: nat, startDate: nat, endDate: nat,
                             instructor: Option<nat>, startRow: nat)

  /**
   * ColumnNotFound is getColumns' error; IndexOutOfRange stands for the
   * run-time panic GetCourses hits when a data row is too short for a cell
   * it reads.
   */
  datatype ExtractError = ColumnNotFound(name: string) | IndexOutOfRange(row: nat)

  predicate IsRequired(name: string) {
    name == MeetingCol || name == DescCol || name == StartDateCol || name == EndDateCol
  }

  predicate IsHeader(cell: string) {
    IsRequired(cell) || cell == InstructorCol
  }

  predicate HasHeader(row: seq<string>) {
    exists j | 0 <= j < |row| :: IsHeader(row[j])
  }

  /** The last position of `name` among the first `j` cells of `row`. */
  function LastBefore(row: seq<string>, name: string, j: nat): (r: Option<nat>)
    requires j <= |row|
    ensures r.Some? ==> r.value < j && row[r.value] == name
                        && forall k | r.value < k < j :: row[k] != name
    ensures r.None? ==> forall k | 0 <= k < j :: row[k] != name
  {
    if j == 0 then None
    else if row[j - 1] == name then Some(j - 1)
    else LastBefore(row, name, j - 1)
  }

  /** The last position of `name` in `row`: later matches overwrite earlier ones. */
  function LastIndex(row: seq<string>, name: string): (r: Option<nat>)
    ensures r.Some? ==> r.value < |row| && row[r.value] == name
                        && forall j | r.value < j < |row| :: row[j] != name
    ensures r.None? ==> forall j | 0 <= j < |row| :: row[j] != name
  {
    LastBefore(row, name, |row|)
  }

  /** The first row holding any recognised header name: the row the scan stops after. */
  function FirstHeaderRow(rows: seq<seq<string>>): (h: Option<nat>)
    ensures h.Some? ==> h.value < |rows| && HasHeader(rows[h.value])
                        && forall k | 0 <= k < h.value :: !HasHeader(rows[k])
    ensures h.None? ==> forall k | 0 <= k < |rows| :: !HasHeader(rows[k])
  {
    if |rows| == 0 then None
    else if HasHeader(rows[0]) then Some(0)
    else match FirstHeaderRow(rows[1..])
      case None => None
      case Some(h) => Some(h + 1)
  }

  /**
   * The index the scan leaves for `name`. Rows before the first header row
   * hold no header name and rows after it are never read, so this is the
   * last position of `name` in that row.
   */
  function ColumnIndex(rows: seq<seq<string>>, name: string): Option<nat> {
    match FirstHeaderRow(rows)
    case None => None
    case Some(h) => LastIndex(rows[h], name)
  }

  /** A required column the scan did not find. */
  predicate Missing(rows: seq<seq<string>>, name: string) {
    IsRequired(name) && ColumnIndex(rows, name).None?
  }

  /** What getColumns finds when it succeeds, or None when it fails. */
  function ResolveColumns(rows: seq<seq<string>>): (r: Option<Columns>)
    ensures r.Some? ==> 1 <= r.value.startRow <= |rows|
    ensures r.None? <==> (Missing(rows, MeetingCol) || Missing(rows, DescCol)
                          || Missing(rows, StartDateCol) || Missing(rows, EndDateCol))
  {
    match FirstHeaderRow(rows)
    case None => None
    case Some(h) =>
      var row := rows[h];
      var m, d, s, e := LastIndex(row, MeetingCol), LastIndex(row, DescCol),
                        LastIndex(row, StartDateCol), LastIndex(row, EndDateCol);
      if m.Some? && d.Some? && s.Some? && e.Some?
      then Some(Columns(m.value, d.value, s.value, e.value, LastIndex(row, InstructorCol), h + 1))
      else None
  }

  /** Some of the first `j` cells of `row` names a header. */
  predicate HeaderBefore(row: seq<string>, j: nat)
    requires j <= |row|
  {
    exists w | 0 <= w < j :: IsHeader(row[w])
  }

  /** `cols` holds what scanning the first `j` cells of `row` left for `name` (-1: not yet seen). */
  ghost predicate Tracks(cols: map<string, int>, row: seq<string>, j: nat, name: string)
    requires j <= |row|
  {
    name in cols && cols[name] == match LastBefore(row, name, j) case Some(w) => w case None => -1
  }

  /** The map getColumns holds after scanning the first `j` cells of `row`. */
  ghost predicate Scanned(cols: map<string, int>, row: seq<string>, j: nat)
    requires j <= |row|
  {
    && Tracks(cols, row, j, MeetingCol) && Tracks(cols, row, j, DescCol)
    && Tracks(cols, row, j, StartDateCol) && Tracks(cols, row, j, EndDateCol)
    && (InstructorCol in cols <==> LastBefore(row, InstructorCol, j).Some?)
    && (InstructorCol in cols ==> cols[InstructorCol] == LastBefore(row, InstructorCol, j).value)
    && forall k | k in cols :: IsHeader(k)
  }

  /** One more cell scanned: a required column's entry moves to it exactly when it names that column. */
  lemma TrackCell(cols: map<string, int>, row: seq<string>, j: nat, next: map<string, int>, name: string)
    requires j < |row| && Tracks(cols, row, j, name)
    requires next == if IsHeader(row[j]) then cols[row[j] := j] else cols
    requires IsRequired(name)
    ensures Tracks(next, row, j + 1, name)
  {
    if row[j] == name {
      assert next[name] == j;
    } else {
      assert next[name] == cols[name];
    }
  }

  /** One more cell scanned: it overwrites the entry of the header it names, if any. */
  lemma ScanCell(cols: map<string, int>, row: seq<string>, j: nat, next: map<string, int>)
    requires j < |row| && Scanned(cols, row, j)
    requires next == if IsHeader(row[j]) then cols[row[j] := j] else cols
    ensures Scanned(next, row, j + 1)
  {
    TrackCell(cols, row, j, next, MeetingCol);
    TrackCell(cols, row, j, next, DescCol);
    TrackCell(cols, row, j, next, StartDateCol);
    TrackCell(cols, row, j, next, EndDateCol);
  }

  /** The map getColumns starts from: every required column at -1. */
  const Unscanned: map<string, int> := map[MeetingCol := -1, DescCol := -1, StartDateCol := -1, EndDateCol := -1]

  lemma UnscannedRow(row: seq<string>)
    ensures Scanned(Unscanned, row, 0)
  {
  }

  /** Without any header row every required column is reported missing. */
  lemma NoHeaderScan(rows: seq<seq<string>>)
    requires FirstHeaderRow(rows).None?
    ensures ResolveColumns(rows).None?
    ensures forall k | k in Unscanned :: Missing(rows, k)
  {
  }

  /** The map left by scanning the first header row holds the columns ResolveColumns finds. */
  lemma HeaderScan(rows: seq<seq<string>>, h: nat)
    requires FirstHeaderRow(rows) == Some(h)
    ensures var cols := ScanMap(Unscanned, rows[h], |rows[h]|);
            && (forall k | k in cols && cols[k] == -1 :: Missing(rows, k))
            && (ResolveColumns(rows).None? ==> exists k :: k in cols && cols[k] == -1)
            && (ResolveColumns(rows).Some? ==>
                  var c := ResolveColumns(rows).value;
                  && cols[MeetingCol] == c.meeting && cols[DescCol] == c.description
                  && cols[StartDateCol] == c.startDate && cols[EndDateCol] == c.endDate
                  && c.startRow == h + 1
                  && (InstructorCol in cols <==> c.instructor.Some?)
                  && (InstructorCol in cols ==> cols[InstructorCol] == c.instructor.value))
  {
    var row := rows[h];
    var cols := ScanMap(Unscanned, row, |row|);
    UnscannedRow(row);
    ScanMapTracks(Unscanned, row, |row|);
    TrackedColumn(rows, h, cols, MeetingCol);
    TrackedColumn(rows, h, cols, DescCol);
    TrackedColumn(rows, h, cols, StartDateCol);
    TrackedColumn(rows, h, cols, EndDateCol);
    assert forall k | k in cols :: IsHeader(k);
  }

  /** A required column's entry after the scan is -1 exactly when the column is missing, and its index otherwise. */
  lemma TrackedColumn(rows: seq<seq<string>>, h: nat, cols: map<string, int>, name: string)
    requires FirstHeaderRow(rows) == Some(h) && IsRequired(name)
    requires Tracks(cols, rows[h], |rows[h]|, name)
    ensures cols[name] == -1 <==> Missing(rows, name)
    ensures cols[name] != -1 ==> ColumnIndex(rows, name) == Some(cols[name] as nat)
  {
  }

  /** The map after scanning the first `j` cells of `row` from `cols`: each header cell overwrites its name's entry. */
  function ScanMap(cols: map<string, int>, row: seq<string>, j: nat): (m: map<string, int>)
    requires j <= |row|
    ensures cols.Keys <= m.Keys
  {
    if j == 0 then cols
    else if IsHeader(row[j - 1]) then ScanMap(cols, row, j - 1)[row[j - 1] := j - 1]
    else ScanMap(cols, row, j - 1)
  }

  /** Scanning from a map that tracks nothing yet leaves, for each header, its last position. */
  lemma {:induction false} ScanMapTracks(cols: map<string, int>, row: seq<string>, j: nat)
    requires j <= |row| && Scanned(cols, row, 0)
    ensures Scanned(ScanMap(cols, row, j), row, j)
  {
    if j > 0 {
      var prev, next := ScanMap(cols, row, j - 1), ScanMap(cols, row, j);
      assert next == if IsHeader(row[j - 1]) then prev[row[j - 1] := j - 1] else prev;
      ScanMapTracks(cols, row, j - 1);
      ScanCell(prev, row, j - 1, next);
    }
  }

  /**
   * The inner loop of getColumns over the cells of one row: every header
   * cell overwrites its name's entry with its index. `found` tells whether
   * the row held a header name, which is when the scan sets its start row.
   */
  method ScanRow(row: seq<string>, cols: map<string, int>) returns (next: map<string, int>, found: bool)
    ensures next == ScanMap(cols, row, |row|)
    ensures found == HasHeader(row)
    ensures !found ==> next == cols
  {
    next, found := cols, false;
    var j := 0;
    while j < |row|
      invariant 0 <= j <= |row|
      invariant next == ScanMap(cols, row, j)
      invariant found == HeaderBefore(row, j)
      invariant !found ==> next == cols
    {
      var cell := row[j];
      // Every case of the switch records the cell's own name.
      if IsHeader(cell) {
        next := next[cell := j];
        found := true;
      }
      j := j + 1;
    }
  }

  /**
   * getColumns: scans the rows top to bottom, recording in a map the index
   * of every header cell, and stops after the first row that held one. It
   * fails with some required column that was not found; which one depends
   * on Go's map iteration order, modelled here as an arbitrary choice.
   */
  method GetColumns(rows: seq<seq<string>>) returns (r: Result<Columns, ExtractError>)
    ensures r.Ok? <==> ResolveColumns(rows).Some?
    ensures r.Ok? ==> r.value == ResolveColumns(rows).value
    ensures r.Err? ==> r.error.ColumnNotFound? && Missing(rows, r.error.name)
  {
    var cols := Unscanned;
    var startRow := -1;
    var i := 0;
    while i < |rows|
      invariant 0 <= i <= |rows|
      invariant forall k | 0 <= k < i :: !HasHeader(rows[k])
      invariant startRow == -1 && cols == Unscanned
    {
      var row := rows[i];
      var found;
      cols, found := ScanRow(row, cols);
      if found {
        startRow := i + 1;
      }
      if startRow != -1 {
        assert FirstHeaderRow(rows) == Some(i);
        break;
      }
      i := i + 1;
    }

    if startRow == -1 {
      NoHeaderScan(rows);
    } else {
      HeaderScan(rows, startRow - 1);
    }
    if exists k :: k in cols && cols[k] == -1 {
      var k :| k in cols && cols[k] == -1;
      return Err(ColumnNotFound(k));
    }
    var instructor := if InstructorCol in cols then Some(cols[InstructorCol] as nat) else None;
    r := Ok(Columns(cols[MeetingCol], cols[DescCol], cols[StartDateCol], cols[EndDateCol], instructor, startRow));
  }

  /** A missing Instructor column reads as index 0: Go's zero value for an absent map key. */
  function InstructorIndex(cols: Columns): nat {
    match cols.instructor
    case Some(j) => j
    case None => 0
  }

  /** Every cell a data row is read at exists. */
  predicate CellsInRange(row: seq<string>, cols: Columns) {
    && cols.description < |row| && InstructorIndex(cols) < |row|
    && cols.meeting < |row| && cols.startDate < |row| && cols.endDate < |row|
  }

  /**
   * The course a data row describes: the listing, followed by " - " and the
   * instructor when that cell is not empty; the other fields verbatim.
   */
  function CourseOf(row: seq<string>, cols: Columns): (c: Course)
    requires CellsInRange(row, cols)
    ensures c.meeting == row[cols.meeting] && c.startDate == row[cols.startDate] && c.endDate == row[cols.endDate]
    ensures var listing := row[cols.description];
            |listing| <= |c.description| && c.description[..|listing|] == listing
    ensures c.description == row[cols.description] <==> row[InstructorIndex(cols)] == ""
  {
    var listing := row[cols.description];
    var instructor := row[InstructorIndex(cols)];
    Course(if instructor == "" then listing else listing + " - " + instructor,
           row[cols.meeting], row[cols.startDate], row[cols.endDate])
  }

  /** The first row at or after `from` with at most `endCol` cells, or the number of rows. */
  function DataEnd(rows: seq<seq<string>>, from: nat, endCol: nat): (e: nat)
    requires from <= |rows|
    ensures from <= e <= |rows|
    ensures forall k | from <= k < e :: |rows[k]| > endCol
    ensures e < |rows| ==> |rows[e]| <= endCol
    decreases |rows| - from
  {
    if from == |rows| || |rows[from]| <= endCol then from else DataEnd(rows, from + 1, endCol)
  }

  /** The description the loop joins is the listing, then " - " and a non-empty instructor. */
  lemma JoinDescription(listing: string, instructor: string)
    ensures Join([listing], " - ") == listing
    ensures Join([listing, instructor], " - ") == listing + " - " + instructor
  {
    assert [listing, instructor][1..] == [instructor];
  }

  /**
   * What the extraction loop produces from the columns `cols`: one course
   * per row from the start row up to the first short row, in row order, or
   * the panic of the first of those rows that lacks a cell it reads.
   */
  ghost predicate Extracts(rows: seq<seq<string>>, cols: Columns, r: Result<seq<Course>, ExtractError>)
    requires cols.startRow <= |rows|
  {
    var start, end := cols.startRow, DataEnd(rows, cols.startRow, cols.endDate);
    match r
    case Ok(courses) =>
      && (forall k | start <= k < end :: CellsInRange(rows[k], cols))
      && |courses| == end - start
      && forall k | 0 <= k < |courses| :: courses[k] == CourseOf(rows[start + k], cols)
    case Err(e) =>
      && e.IndexOutOfRange? && start <= e.row < end
      && !CellsInRange(rows[e.row], cols)
      && forall k | start <= k < e.row :: CellsInRange(rows[k], cols)
  }

  /**
   * The row loop of GetCourses: from the start row on, each row becomes a
   * course, until the first row too short to hold the End Date cell.
   */
  method ReadRows(rows: seq<seq<string>>, cols: Columns) returns (r: Result<seq<Course>, ExtractError>)
    requires cols.startRow <= |rows|
    ensures Extracts(rows, cols, r)
  {
    var courses: seq<Course> := [];
    var i := cols.startRow;
    while i < |rows|
      invariant cols.startRow <= i <= |rows|
      invariant forall k | cols.startRow <= k < i :: CellsInRange(rows[k], cols)
      invariant |courses| == i - cols.startRow
      invariant forall k | 0 <= k < |courses| :: courses[k] == CourseOf(rows[cols.startRow + k], cols)
    {
      var row := rows[i];
      if |row| <= cols.endDate {
        DataEndAt(rows, cols, i);
        break;
      }
      if cols.description >= |row| || InstructorIndex(cols) >= |row|
         || cols.meeting >= |row| || cols.startDate >= |row| {
        DataEndPast(rows, cols, i);
        return Err(IndexOutOfRange(i));
      }
      var descSlice := [row[cols.description]];
      if row[InstructorIndex(cols)] != "" {
        descSlice := descSlice + [row[InstructorIndex(cols)]];
      }
      var course := Course(Join(descSlice, " - "), row[cols.meeting], row[cols.startDate], row[cols.endDate]);
      JoinDescription(row[cols.description], row[InstructorIndex(cols)]);
      assert course == CourseOf(row, cols);
      courses := courses + [course];
      i := i + 1;
    }
    if i == |rows| {
      DataEndAt(rows, cols, i);
    }
    return Ok(courses);
  }

  /** The data ends at `i` when every row before it is long enough and `i` is short or the end. */
  lemma DataEndAt(rows: seq<seq<string>>, cols: Columns, i: nat)
    requires cols.startRow <= i <= |rows|
    requires forall k | cols.startRow <= k < i :: CellsInRange(rows[k], cols)
    requires i == |rows| || |rows[i]| <= cols.endDate
    ensures DataEnd(rows, cols.startRow, cols.endDate) == i
  {
  }

  /** A long enough row after long enough rows is still before the end of the data. */
  lemma DataEndPast(rows: seq<seq<string>>, cols: Columns, i: nat)
    requires cols.startRow <= i < |rows|
    requires forall k | cols.startRow <= k < i :: CellsInRange(rows[k], cols)
    requires |rows[i]| > cols.endDate
    ensures i < DataEnd(rows, cols.startRow, cols.endDate)
  {
  }

  /**
   * GetCourses on rows already read from the sheet: resolves the columns,
   * then reads the data rows below the header row.
   */
  method GetCourses(rows: seq<seq<string>>) returns (r: Result<seq<Course>, ExtractError>)
    ensures ResolveColumns(rows).None? ==> r.Err? && r.error.ColumnNotFound? && Missing(rows, r.error.name)
    ensures ResolveColumns(rows).Some? ==> Extracts(rows, ResolveColumns(rows).value, r)
  {
    var found := GetColumns(rows);
    if found.Err? {
      return Err(found.error);
    }
    r := ReadRows(rows, found.value);
  }

  /** Rows before the header row that hold no header name only move the start row. */
  lemma LeadingRowsShiftStart(pre: seq<seq<string>>, rows: seq<seq<string>>)
    requires forall k | 0 <= k < |pre| :: !HasHeader(pre[k])
    ensures ResolveColumns(pre + rows) == match ResolveColumns(rows)
                                          case None => None
                                          case Some(c) => Some(c.(startRow := c.startRow + |pre|))
  {
    var all := pre + rows;
    match FirstHeaderRow(rows)
    case None =>
      assert forall k | 0 <= k < |all| :: !HasHeader(all[k]) by {
        forall k | 0 <= k < |all|
          ensures !HasHeader(all[k])
        {
          if k >= |pre| {
            assert all[k] == rows[k - |pre|];
          }
        }
      }
    case Some(h) =>
      assert all[h + |pre|] == rows[h];
      assert forall k | 0 <= k < h + |pre| :: !HasHeader(all[k]) by {
        forall k | 0 <= k < h + |pre|
          ensures !HasHeader(all[k])
        {
          if k >= |pre| {
            assert all[k] == rows[k - |pre|];
          }
        }
      }
      assert FirstHeaderRow(all) == Some(h + |pre|);
  }

  /**
   * Header names spread over two rows are not merged: the scan stops after
   * the first, so the columns of the second are reported missing.
   */
  lemma SplitHeaderRejected()
    ensures ResolveColumns([[DescCol, MeetingCol], [StartDateCol, EndDateCol]]).None?
  {
    var rows := [[DescCol, MeetingCol], [StartDateCol, EndDateCol]];
    assert IsHeader(rows[0][0]);
    assert FirstHeaderRow(rows) == Some(0);
  }

  /**
   * With no Instructor column, column 0 is read as the instructor: a sheet
   * whose first column is Course Listing repeats the listing.
   */
  lemma MissingInstructorReadsColumnZero()
    ensures var rows := [[DescCol, MeetingCol, StartDateCol, EndDateCol],
                         ["CS 1101", "", "01-06-25", "05-02-25"]];
            && ResolveColumns(rows) == Some(Columns(1, 0, 2, 3, None, 1))
            && CourseOf(rows[1], ResolveColumns(rows).value).description == "CS 1101 - CS 1101"
  {
    var rows := [[DescCol, MeetingCol, StartDateCol, EndDateCol],
                 ["CS 1101", "", "01-06-25", "05-02-25"]];
    var header := rows[0];
    assert IsHeader(header[0]);
    assert FirstHeaderRow(rows) == Some(0);
    assert LastIndex(header, InstructorCol) == None by {
      assert forall j | 0 <= j < |header| :: header[j] != InstructorCol;
    }
    assert LastIndex(header, EndDateCol) == Some(3) by {
      assert header[3] == EndDateCol;
    }
    assert LastIndex(header, StartDateCol) == Some(2) by {
      assert header[2] == StartDateCol && header[3] != StartDateCol;
    }
    assert LastIndex(header, MeetingCol) == Some(1) by {
      assert header[1] == MeetingCol;
      assert |header[3]| != |MeetingCol| && |header[2]| != |MeetingCol|;
    }
    assert LastIndex(header, DescCol) == Some(0) by {
      assert header[0] == DescCol;
      assert |header[3]| != |DescCol| && |header[2]| != |DescCol| && |header[1]| != |DescCol|;
    }
  }
}
