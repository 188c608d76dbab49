/** sim_watcher_influx.py: the KPM watcher re-reads whole files and sends each record once. */
module Watcher {
  import opened Bits
  import opened Doubles
  import opened Text

  // ----- files and records -----

  /** The files the watcher's patterns admit, by name. */
  datatype SourceFile = CuUp(cell: nat) | CuCp(cell: nat) | Du(cell: nat)

  /** The third part of a key; a file without one leaves the key unbound, which is an error. */
  function FileType(f: SourceFile): Option<nat> {
    match f
    case CuUp(n) => if 2 <= n <= 5 then Some(0) else if n == 1 then Some(3) else None
    case CuCp(n) => if 2 <= n <= 5 then Some(1) else if n == 1 then Some(4) else None
    case Du(n) => if 2 <= n <= 5 then Some(2) else None
  }

  /** The digits before ".txt". */
  function FileId(f: SourceFile): string {
    Decimal(f.cell)
  }

  /** A parsed row: an empty cell is None. */
  datatype Row = Row(timestamp: int, imsi: int, ue: string, cells: seq<Option<real>>)

  /** A file as a modify event finds it. */
  datatype Snapshot = Snapshot(file: SourceFile, columns: seq<string>, rows: seq<Row>)

  type Key = (int, int, nat)

  function KeyOf(f: SourceFile, row: Row): Key
    requires FileType(f).Some?
  {
    (row.timestamp, row.imsi, FileType(f).value)
  }

  const FILE_ID_NUMBER := "file_id_number"
  const TIMESTAMP := "timestamp"

  /** A row at least as wide as the header, surplus cells not being looked at, whose timestamp cell is the timestamp. */
  ghost predicate ParseableRow(columns: seq<string>, row: Row) {
    && |row.cells| >= |columns|
    && exists t :: 0 <= t < |columns| && columns[t] == TIMESTAMP && row.cells[t] == Some(Double(row.timestamp as real))
  }

  /** A file the watcher reads without an error. */
  ghost predicate Parseable(s: Snapshot) {
    && FileType(s.file).Some?
    && FILE_ID_NUMBER !in s.columns
    && (forall i, j :: 0 <= i < j < |s.columns| ==> s.columns[i] != s.columns[j])
    && forall i :: 0 <= i < |s.rows| ==> ParseableRow(s.columns, s.rows[i])
  }

  lemma ParseableRowExactly(columns: seq<string>, row: Row)
    ensures ParseableRow(columns, row) <==>
              && |row.cells| >= |columns|
              && exists t :: 0 <= t < |columns| && columns[t] == "timestamp" && row.cells[t] == Some(Double(row.timestamp as real))
  {
    hide Double;
    if ParseableRow(columns, row) {
      var t :| 0 <= t < |columns| && columns[t] == TIMESTAMP && row.cells[t] == Some(Double(row.timestamp as real));
      assert columns[t] == "timestamp";
    }
    if t :| 0 <= t < |columns| <= |row.cells| && columns[t] == "timestamp" && row.cells[t] == Some(Double(row.timestamp as real)) {
      assert columns[t] == TIMESTAMP;
    }
  }

  /** What that asks for, spelled out. */
  lemma ParseableExactly(s: Snapshot)
    ensures Parseable(s) <==>
              && (2 <= s.file.cell <= 5 || (s.file.cell == 1 && !s.file.Du?))
              && "file_id_number" !in s.columns
              && (forall i, j :: 0 <= i < j < |s.columns| ==> s.columns[i] != s.columns[j])
              && forall i :: 0 <= i < |s.rows| ==>
                   && |s.rows[i].cells| >= |s.columns|
                   && exists t :: 0 <= t < |s.columns| && s.columns[t] == "timestamp"
                                  && s.rows[i].cells[t] == Some(Double(s.rows[i].timestamp as real))
  {
    hide ParseableRow, Double;
    forall i | 0 <= i < |s.rows|
      ensures ParseableRow(s.columns, s.rows[i]) <==>
                && |s.rows[i].cells| >= |s.columns|
                && exists t :: 0 <= t < |s.columns| && s.columns[t] == "timestamp"
                               && s.rows[i].cells[t] == Some(Double(s.rows[i].timestamp as real))
    {
      ParseableRowExactly(s.columns, s.rows[i]);
    }
  }

  /** The non-empty columns among the first n. */
  function Fields(columns: seq<string>, cells: seq<Option<real>>, n: nat): seq<string>
    requires n <= |columns| && n <= |cells|
  {
    if n == 0 then [] else Fields(columns, cells, n - 1) + if cells[n - 1].Some? then [columns[n - 1]] else []
  }

  /** Their values. */
  function Numbers(cells: seq<Option<real>>, n: nat): seq<real>
    requires n <= |cells|
  {
    if n == 0 then [] else Numbers(cells, n - 1) + if cells[n - 1].Some? then [cells[n - 1].value] else []
  }

  // ----- timestamps -----

  /** pow(10, -1) */
  const TENTH: real := 3602879701896397.0 / 36028797018963968.0

  /** That is the double nearest to a tenth. */
  lemma TenthIsNearest()
    ensures TENTH == 3602879701896397.0 / 36028797018963968.0 == Double(0.1)
  {
    hide Fine, HalfEven, Pow2;
    TwoTo56();
    var y := 0.1 * (Pow2(56) as real);
    assert y == 7205759403792793.6;
    FineScaled(0.1, y, 56, 1074);
    HalfEvenNearest(y);
    assert HalfEven(y) == 7205759403792794;
  }

  lemma TwoTo56()
    ensures Pow2(56) == 72057594037927936
  {
    hide Shl, Pow2;
    Shift8(0);
    Pow2Shl(8, 24);
    ShlOctets(Pow2(8));
    Pow2Shl(32, 24);
    ShlOctets(Pow2(32));
  }

  /** The timestamp tag of a list starting with v. */
  function TagOf(v: real): int {
    Trunc(Double(v * 1000000.0))
  }

  lemma OddOfDouble(n: nat)
    ensures OddPart(2 * n) == OddPart(n)
  {
  }

  /** A million is 2^6 times an odd number. */
  lemma {:induction false} OddOfMillions(t: nat)
    ensures OddPart(t * 1000000) == OddPart(t) * 15625
  {
    if t == 0 {
      OddBound(0);
    } else if t % 2 == 0 {
      OddOfMillions(t / 2);
      OddOfDouble(t / 2);
      OddOfDouble(t / 2 * 1000000);
      assert t == 2 * (t / 2) && t * 1000000 == 2 * (t / 2 * 1000000);
    } else {
      OddOfShifted(t * 15625, 6);
      assert t * 15625 % 2 == 1;
      ShiftedSix(t * 15625);
    }
  }

  lemma ShiftedSix(m: nat)
    ensures Shl(m, 6) == 64 * m
  {
    assert Shl(m, 1) == 2 * m && Shl(m, 2) == 4 * m && Shl(m, 3) == 8 * m;
    assert Shl(m, 4) == 16 * m && Shl(m, 5) == 32 * m;
  }

  lemma {:induction false} OddOfShifted(m: nat, k: nat)
    ensures OddPart(Shl(m, k)) == OddPart(m)
  {
    if k > 0 { OddOfShifted(m, k - 1); }
  }

  /**
   * The tag of a timestamp in milliseconds is its exact number of nanoseconds exactly
   * when 53 bits hold the odd part of that number.
   */
  lemma ExactTag(t: int)
    ensures TagOf(Double(t as real)) == t * 1000000 <==> OddPart(Abs(t)) * 15625 < TWO53
  {
    hide Nearest, OddPart;
    ExactTagAbs(Abs(t));
    if t < 0 {
      assert -(t as real) == Abs(t) as real;
      var d := Nearest(Abs(t) as real);
      NegativeTag(d);
    }
  }

  lemma NegativeTag(d: real)
    requires d >= 0.0
    ensures TagOf(-d) == -TagOf(d)
  {
    hide Nearest;
    assert -d * 1000000.0 == -(d * 1000000.0);
    var y := d * 1000000.0;
    if y == 0.0 {
      assert d == 0.0;
      assert -d == d;
      ZeroTag();
    }
  }

  lemma ZeroTag()
    ensures TagOf(0.0) == 0
  {
    FineInteger(0, 1074);
  }

  lemma ExactTagAbs(t: nat)
    ensures TagOf(Nearest(t as real)) == t * 1000000 <==> OddPart(t) * 15625 < TWO53
  {
    hide Nearest, OddPart;
    var n := t * 1000000;
    NearestExact(t);
    NearestExact(n);
    OddOfMillions(t);
    OddBound(t);
    if OddPart(t) < TWO53 {
      assert t as real * 1000000.0 == n as real;
      IntegerTag(n);
    } else {
      NearestInteger(t as real);
      var d := Nearest(t as real);
      NearestInteger(d * 1000000.0);
      NearestTwice(d * 1000000.0);
    }
  }

  lemma IntegerTag(n: nat)
    ensures Trunc(Double(n as real)) == n <==> Nearest(n as real) == n as real
  {
    hide Nearest;
    if n >= TWO52 {
      NearestInteger(n as real);
    } else {
      OddBound(n);
      NearestExact(n);
    }
  }

  /** The first timestamp of the sample logs is tagged 64 nanoseconds early. */
  lemma InexactTag()
    ensures TagOf(Double(1732181313945 as real)) == 1732181313944999936
  {
    hide Fine;
    assert Double(1732181313945.0) == 1732181313945.0 by { FineInteger(1732181313945, 1074); }
    var x := 1732181313945000000.0;
    assert Nearest(x) == 2.0 * Nearest(866090656972500000.0);
    assert Nearest(866090656972500000.0) == 2.0 * Nearest(433045328486250000.0);
    assert Nearest(433045328486250000.0) == 2.0 * Nearest(216522664243125000.0);
    assert Nearest(216522664243125000.0) == 2.0 * Nearest(108261332121562500.0);
    assert Nearest(108261332121562500.0) == 2.0 * Nearest(54130666060781250.0);
    assert Nearest(54130666060781250.0) == 2.0 * Nearest(27065333030390625.0);
    assert Nearest(27065333030390625.0) == 2.0 * Nearest(13532666515195312.5);
    assert Nearest(13532666515195312.5) == 2.0 * Nearest(6766333257597656.25);
    assert Nearest(6766333257597656.25) == 6766333257597656.0 by { QuarterDown(); }
  }

  lemma QuarterDown()
    ensures Fine(6766333257597656.25, 1074) == 6766333257597656.0
  {
    assert (6766333257597656.25).Floor == 6766333257597656;
  }

  // ----- points -----

  datatype Point = Point(measurement: string, timestamp: int, value: real)

  const LATENCY := "DRB.PdcpSduDelayDl.UEID (pdcpLatency)"

  predicate Contains(s: string, t: string) {
    t <= s || (s != "" && Contains(s[1..], t))
  }

  function NoSpaces(s: string): string {
    if s == "" then "" else (if s[0] == ' ' then "" else [s[0]]) + NoSpaces(s[1..])
  }

  function IntText(n: int): string {
    if n < 0 then "-" + Decimal(-n) else Decimal(n)
  }

  function Scaled(field: string, v: real): real {
    if field == LATENCY then Double(v * TENTH) else v
  }

  predicate NamesCell(field: string) {
    Contains(field, "L3") && Contains(field, "cellId")
  }

  /** The value of the last of the first n columns that carries a cell identity, or 0. */
  function LatestCell(fields: seq<string>, values: seq<real>, n: nat): real
    requires n <= |fields| == |values|
  {
    if n == 0 then 0.0
    else if NamesCell(fields[n - 1]) then Scaled(fields[n - 1], values[n - 1])
    else LatestCell(fields, values, n - 1)
  }

  function TypeSuffix(fileType: nat): string {
    if fileType == 0 || fileType == 3 then "_up"
    else if fileType == 1 || fileType == 4 then "_cp"
    else if fileType == 2 then "_du"
    else ""
  }

  /** A column about the cell as a whole. */
  predicate CellWide(field: string) {
    !Contains(field, "UEID") && !Contains(field, "L3")
  }

  function Measurement(field: string, cell: real, ue: string, fileType: nat, fileId: string): string {
    if CellWide(field) then NoSpaces(field + "_cell_" + fileId)
    else
      NoSpaces(field + (if Contains(field, "SINR") then "_cell_" + IntText(Trunc(cell)) else "")
               + "_ue_" + ue + TypeSuffix(fileType))
  }

  /** The point of column j. */
  function PointOf(fields: seq<string>, values: seq<real>, j: nat, ue: string, fileType: nat, fileId: string): Point
    requires j < |fields| == |values|
  {
    Point(Measurement(fields[j], LatestCell(fields, values, j + 1), ue, fileType, fileId),
          TagOf(values[0]),
          Scaled(fields[j], values[j]))
  }

  function Points(fields: seq<string>, values: seq<real>, ue: string, fileType: nat, fileId: string): (p: seq<Point>)
    requires |fields| == |values|
    ensures |p| == |fields|
  {
    seq(|fields|, j requires 0 <= j < |fields| => PointOf(fields, values, j, ue, fileType, fileId))
  }

  // ----- the watcher -----

  datatype Value = Number(r: real) | Id(s: string)

  /** One call of write_points. */
  datatype Write = Write(key: Key, points: seq<Point>)

  /** What one row sends. */
  function WriteOf(f: SourceFile, columns: seq<string>, row: Row): Write
    requires FileType(f).Some? && |row.cells| >= |columns|
  {
    var n := |columns|;
    FieldsAlign(columns, row.cells, n);
    Write(KeyOf(f, row),
          Points(Fields(columns, row.cells, n), Numbers(row.cells, n), row.ue, FileType(f).value, FileId(f)))
  }

  lemma {:induction false} FieldsAlign(columns: seq<string>, cells: seq<Option<real>>, n: nat)
    requires n <= |columns| && n <= |cells|
    ensures |Fields(columns, cells, n)| == |Numbers(cells, n)| <= n
    ensures forall f :: f in Fields(columns, cells, n) ==> f in columns
  {
    if n > 0 { FieldsAlign(columns, cells, n - 1); }
  }

  /** How many of the first n cells are filled. */
  function Filled(cells: seq<Option<real>>, n: nat): nat
    requires n <= |cells|
  {
    if n == 0 then 0 else Filled(cells, n - 1) + if cells[n - 1].Some? then 1 else 0
  }

  /** A filled cell's place among the filled ones, and its column's. */
  lemma {:induction false} FilledAt(columns: seq<string>, cells: seq<Option<real>>, n: nat, c: nat)
    requires c < n <= |columns| <= |cells| && cells[c].Some?
    ensures Filled(cells, c) < Filled(cells, n) == |Fields(columns, cells, n)| == |Numbers(cells, n)|
    ensures Fields(columns, cells, n)[Filled(cells, c)] == columns[c]
    ensures Numbers(cells, n)[Filled(cells, c)] == cells[c].value
  {
    FilledLength(columns, cells, n - 1);
    if c < n - 1 { FilledAt(columns, cells, n - 1, c); }
  }

  lemma {:induction false} FilledLength(columns: seq<string>, cells: seq<Option<real>>, n: nat)
    requires n <= |columns| <= |cells|
    ensures Filled(cells, n) == |Fields(columns, cells, n)| == |Numbers(cells, n)|
  {
    if n > 0 { FilledLength(columns, cells, n - 1); }
  }

  datatype State = State(consumed: set<Key>, sent: seq<Write>)

  const FRESH := State({}, [])

  /** One row. */
  function RowStep(s: State, f: SourceFile, columns: seq<string>, row: Row): State
    requires FileType(f).Some? && |row.cells| >= |columns|
  {
    if KeyOf(f, row) in s.consumed then s
    else State(s.consumed + {KeyOf(f, row)}, s.sent + [WriteOf(f, columns, row)])
  }

  predicate WideEnough(snap: Snapshot) {
    FileType(snap.file).Some? && forall i :: 0 <= i < |snap.rows| ==> |snap.rows[i].cells| >= |snap.columns|
  }

  /** Rows lo up to hi of a snapshot. */
  function Read(s: State, snap: Snapshot, lo: nat, hi: nat): State
    requires lo <= hi <= |snap.rows| && WideEnough(snap)
    decreases hi
  {
    if lo == hi then s else RowStep(Read(s, snap, lo, hi - 1), snap.file, snap.columns, snap.rows[hi - 1])
  }

  /** A modify event reads the whole file. */
  function Modified(s: State, snap: Snapshot): State
    requires WideEnough(snap)
  {
    Read(s, snap, 0, |snap.rows|)
  }

  /** The list stored for a key. */
  function Stored(fields: seq<string>, values: seq<real>, scaled: nat, fileId: string): seq<Value>
    requires |fields| == |values|
  {
    seq(|values|, j requires 0 <= j < |values| => Number(if j < scaled then Scaled(fields[j], values[j]) else values[j]))
    + [Id(fileId)]
  }

  class SimWatcher {
    var kpmMap: map<Key, seq<Value>>
    var consumedKeys: set<Key>
    var sent: seq<Write>

    /** Every key in the map has been consumed: no list is ever appended to twice. */
    ghost predicate Valid()
      reads this
    {
      kpmMap.Keys == consumedKeys
    }

    ghost function Now(): State
      reads this
    {
      State(consumedKeys, sent)
    }

    constructor ()
      ensures Valid() && Now() == FRESH
    {
      kpmMap, consumedKeys, sent := map[], {}, [];
    }

    /** The loop body for one column: its point, and the cell identity from here on. */
    method SendColumn(key: Key, field: string, i: nat, cellId: real, timestamp: int, ue: string, fileType: nat,
                      ghost f: seq<string>, ghost values: seq<real>, ghost fileId: string)
      returns (p: Point, cellNow: real)
      requires key in kpmMap && i < |f| == |values| && field == f[i]
      requires kpmMap[key] == Stored(f, values, i, fileId)
      requires cellId == LatestCell(f, values, i) && timestamp == TagOf(values[0])
      modifies this`kpmMap
      ensures kpmMap == old(kpmMap)[key := Stored(f, values, i + 1, fileId)]
      ensures p == PointOf(f, values, i, ue, fileType, fileId) && cellNow == LatestCell(f, values, i + 1)
    {
      hide Contains, NoSpaces, Trunc, TagOf, Double, TypeSuffix, IntText;
      StoredStep(f, values, i, fileId);
      cellNow := cellId;
      var stat := field;
      if field == LATENCY {
        kpmMap := kpmMap[key := kpmMap[key][i := Number(Double(kpmMap[key][i].r * TENTH))]];
      } else {
        assert kpmMap[key][i := kpmMap[key][i]] == kpmMap[key];
        assert kpmMap[key := kpmMap[key]] == kpmMap;
      }
      var value := kpmMap[key][i].r;
      if Contains(field, "L3") && Contains(field, "cellId") {
        cellNow := value;
      }
      if Contains(field, "SINR") {
        stat := stat + ("_cell_" + IntText(Trunc(cellNow)));
      }
      if !Contains(field, "UEID") && !Contains(field, "L3") {
        stat := NoSpaces(field + "_cell_" + kpmMap[key][|kpmMap[key]| - 1].s);
      } else {
        stat := NoSpaces(stat + "_ue_" + ue + TypeSuffix(fileType));
        assert field + "" == field;
      }
      p := Point(stat, timestamp, value);
    }

    /** _send_to_influxDB on the list stored for key: the latency is scaled in place. */
    method SendToInflux(key: Key, ue: string, fields: seq<string>, fileType: nat,
                        ghost values: seq<real>, ghost fileId: string)
      requires key in kpmMap && |fields| == |values| + 1 && values != []
      requires fields[|values|] == FILE_ID_NUMBER && FILE_ID_NUMBER !in fields[..|values|]
      requires kpmMap[key] == Stored(fields[..|values|], values, 0, fileId)
      modifies this
      ensures kpmMap == old(kpmMap)[key := Stored(fields[..|values|], values, |values|, fileId)]
      ensures sent == old(sent) + [Write(key, Points(fields[..|values|], values, ue, fileType, fileId))]
      ensures consumedKeys == old(consumedKeys)
    {
      hide PointOf, TagOf, LatestCell, Stored;
      ghost var f := fields[..|values|];
      StoredStep(f, values, 0, fileId);
      NoCell(f, values);
      var timestamp := TagOf(kpmMap[key][0].r);
      var i: nat, points: seq<Point>, cellId := 0, [], 0.0;
      for n := 0 to |fields|
        invariant key in kpmMap && consumedKeys == old(consumedKeys) && sent == old(sent)
        invariant i == if n < |values| then n else |values|
        invariant kpmMap == old(kpmMap)[key := Stored(f, values, i, fileId)]
        invariant cellId == LatestCell(f, values, i)
        invariant |points| == i && forall j :: 0 <= j < i ==> points[j] == PointOf(f, values, j, ue, fileType, fileId)
      {
        LastField(fields, n, |values|);
        if fields[n] == FILE_ID_NUMBER {
          continue;
        }
        var p;
        p, cellId := SendColumn(key, fields[n], i, cellId, timestamp, ue, fileType, f, values, fileId);
        points := points + [p];
        i := i + 1;
      }
      assert points == Points(f, values, ue, fileType, fileId);
      sent := sent + [Write(key, points)];
    }

    /** The values of the filled columns go into the empty list of key. */
    method FillList(key: Key, columns: seq<string>, cells: seq<Option<real>>) returns (fields: seq<string>)
      requires key in kpmMap && kpmMap[key] == [] && |cells| >= |columns|
      modifies this`kpmMap
      ensures fields == Fields(columns, cells, |columns|)
      ensures kpmMap == old(kpmMap)[key := Listed(Numbers(cells, |columns|))]
    {
      hide Fields, Numbers, Listed;
      fields := [];
      NoColumns(columns, cells);
      for c := 0 to |columns|
        invariant fields == Fields(columns, cells, c)
        invariant kpmMap == old(kpmMap)[key := Listed(Numbers(cells, c))]
      {
        MoreColumns(columns, cells, c);
        if cells[c].None? {
          continue;
        }
        kpmMap := kpmMap[key := kpmMap[key] + [Number(cells[c].value)]];
        fields := fields + [columns[c]];
      }
    }

    /** One row of the file; the new list is filled before it is sent. */
    method ReadRow(file: SourceFile, columns: seq<string>, row: Row)
      requires Valid() && FileType(file).Some? && ParseableRow(columns, row) && FILE_ID_NUMBER !in columns
      modifies this
      ensures Valid() && Now() == RowStep(old(Now()), file, columns, row)
      ensures kpmMap == if KeyOf(file, row) in old(consumedKeys) then old(kpmMap)
                        else old(kpmMap)[KeyOf(file, row) := StoredRow(file, columns, row)]
    {
      hide Points, Stored, FileType, FileId, Fields, Numbers;
      var key := KeyOf(file, row);
      if key !in consumedKeys {
        if key !in kpmMap {
          kpmMap := kpmMap[key := []];
        }
        var fields := FillList(key, columns, row.cells);
        ghost var f, v := Fields(columns, row.cells, |columns|), Numbers(row.cells, |columns|);
        FieldsAlign(columns, row.cells, |columns|);
        TimestampFilled(columns, row);
        fields := fields + [FILE_ID_NUMBER];
        kpmMap := kpmMap[key := kpmMap[key] + [Id(FileId(file))]];
        consumedKeys := consumedKeys + {key};
        StoredList(f, v, FileId(file));
        assert fields[..|v|] == f;
        SendToInflux(key, row.ue, fields, key.2, v, FileId(file));
      }
    }

    /** on_modified */
    method OnModified(snap: Snapshot)
      requires Valid() && Parseable(snap)
      modifies this
      ensures Valid() && WideEnough(snap) && Now() == Modified(old(Now()), snap)
    {
      hide RowStep;
      for i := 0 to |snap.rows|
        invariant Valid() && Now() == Read(old(Now()), snap, 0, i)
      {
        ReadRow(snap.file, snap.columns, snap.rows[i]);
      }
    }
  }

  /** Numbers as list items. */
  function Listed(values: seq<real>): seq<Value> {
    seq(|values|, j requires 0 <= j < |values| => Number(values[j]))
  }

  /** The list stored for a row. */
  function StoredRow(f: SourceFile, columns: seq<string>, row: Row): seq<Value>
    requires |row.cells| >= |columns|
  {
    var n := |columns|;
    FieldsAlign(columns, row.cells, n);
    Stored(Fields(columns, row.cells, n), Numbers(row.cells, n), |Numbers(row.cells, n)|, FileId(f))
  }

  lemma TimestampFilled(columns: seq<string>, row: Row)
    requires ParseableRow(columns, row)
    ensures Numbers(row.cells, |columns|) != []
  {
    var t :| 0 <= t < |columns| && columns[t] == TIMESTAMP && row.cells[t] == Some(Double(row.timestamp as real));
    FilledAt(columns, row.cells, |columns|, t);
  }

  lemma NoColumns(columns: seq<string>, cells: seq<Option<real>>)
    ensures Fields(columns, cells, 0) == [] && Listed(Numbers(cells, 0)) == []
  {
  }

  lemma MoreColumns(columns: seq<string>, cells: seq<Option<real>>, c: nat)
    requires c < |columns| && c < |cells|
    ensures Fields(columns, cells, c + 1)
         == if cells[c].Some? then Fields(columns, cells, c) + [columns[c]] else Fields(columns, cells, c)
    ensures Listed(Numbers(cells, c + 1))
         == if cells[c].Some? then Listed(Numbers(cells, c)) + [Number(cells[c].value)] else Listed(Numbers(cells, c))
  {
    assert Fields(columns, cells, c) + [] == Fields(columns, cells, c);
    assert Numbers(cells, c) + [] == Numbers(cells, c);
  }

  lemma StoredList(f: seq<string>, values: seq<real>, fileId: string)
    requires |f| == |values|
    ensures Listed(values) + [Id(fileId)] == Stored(f, values, 0, fileId)
  {
  }

  lemma StoredStep(f: seq<string>, values: seq<real>, i: nat, fileId: string)
    requires i < |f| == |values|
    ensures var s := Stored(f, values, i, fileId);
            && |s| == |values| + 1 && s[i] == Number(values[i]) && s[|values|] == Id(fileId)
            && Stored(f, values, i + 1, fileId) == s[i := Number(Scaled(f[i], values[i]))]
  {
  }

  lemma LastField(fields: seq<string>, n: nat, m: nat)
    requires n < |fields| == m + 1 && fields[m] == FILE_ID_NUMBER && FILE_ID_NUMBER !in fields[..m]
    ensures fields[n] == FILE_ID_NUMBER <==> n == m
  {
    assert forall i :: 0 <= i < m ==> fields[i] == fields[..m][i];
  }

  lemma NoCell(f: seq<string>, values: seq<real>)
    requires |f| == |values|
    ensures LatestCell(f, values, 0) == 0.0
  {
  }

  // ----- values belong to their columns -----

  /** The value of the last filled column before c that carries a cell identity, or 0. */
  function ColumnCell(columns: seq<string>, cells: seq<Option<real>>, c: nat): real
    requires c <= |columns| <= |cells|
  {
    if c == 0 then 0.0
    else if NamesCell(columns[c - 1]) && cells[c - 1].Some? then Scaled(columns[c - 1], cells[c - 1].value)
    else ColumnCell(columns, cells, c - 1)
  }

  lemma {:induction false} CellOfColumns(columns: seq<string>, cells: seq<Option<real>>, c: nat)
    requires c <= |columns| <= |cells|
    ensures |Fields(columns, cells, c)| == |Numbers(cells, c)|
    ensures LatestCell(Fields(columns, cells, c), Numbers(cells, c), |Numbers(cells, c)|) == ColumnCell(columns, cells, c)
  {
    hide NamesCell, Scaled;
    FilledLength(columns, cells, c);
    if c > 0 {
      CellOfColumns(columns, cells, c - 1);
      FilledLength(columns, cells, c - 1);
      var f, v := Fields(columns, cells, c - 1), Numbers(cells, c - 1);
      if cells[c - 1].Some? {
        CellOfPrefix(f, v, [columns[c - 1]], [cells[c - 1].value], |v|);
      } else {
        assert f + [] == f && v + [] == v;
      }
    }
  }

  lemma {:induction false} CellOfPrefix(f: seq<string>, v: seq<real>, g: seq<string>, w: seq<real>, n: nat)
    requires |f| == |v| && |g| == |w| && n <= |f|
    ensures LatestCell(f + g, v + w, n) == LatestCell(f, v, n)
  {
    if n > 0 { CellOfPrefix(f, v, g, w, n - 1); }
  }

  lemma {:induction false} FieldsPrefix(columns: seq<string>, cells: seq<Option<real>>, m: nat, n: nat)
    requires m <= n <= |columns| <= |cells|
    ensures Fields(columns, cells, m) <= Fields(columns, cells, n) && Numbers(cells, m) <= Numbers(cells, n)
    decreases n
  {
    if m < n { FieldsPrefix(columns, cells, m, n - 1); }
  }

  /**
   * Every filled column gives one point, in order: its value is that column's
   * (the latency scaled once), its measurement is named after that column and the
   * latest cell identity at or before it, and its tag comes from the first value.
   */
  lemma ColumnPoint(f: SourceFile, columns: seq<string>, row: Row, c: nat)
    requires FileType(f).Some? && ParseableRow(columns, row) && c < |columns| && row.cells[c].Some?
    ensures var points := WriteOf(f, columns, row).points;
            && |points| == Filled(row.cells, |columns|) && Filled(row.cells, c) < |points|
            && var p := points[Filled(row.cells, c)];
               && p.value == (if columns[c] == "DRB.PdcpSduDelayDl.UEID (pdcpLatency)" then Double(row.cells[c].value * (3602879701896397.0 / 36028797018963968.0))
                              else row.cells[c].value)
               && p.measurement == Measurement(columns[c], ColumnCell(columns, row.cells, c + 1), row.ue,
                                               FileType(f).value, FileId(f))
               && (columns[0] == TIMESTAMP && row.cells[0] == Some(Double(row.timestamp as real)) ==>
                     (p.timestamp == row.timestamp * 1000000 <==> OddPart(Abs(row.timestamp)) * 15625 < TWO53))
  {
    hide Measurement, Scaled, FileType, FileId, NamesCell, Fields, Numbers, Filled, LatestCell, ColumnCell, TagOf, Double, OddPart;
    var n, i := |columns|, Filled(row.cells, c);
    var fs, vs := Fields(columns, row.cells, n), Numbers(row.cells, n);
    FilledAt(columns, row.cells, n, c);
    CellOfColumns(columns, row.cells, c + 1);
    FieldsPrefix(columns, row.cells, c + 1, n);
    FilledAt(columns, row.cells, c + 1, c);
    FilledNext(row.cells, c);
    var g, w := Fields(columns, row.cells, c + 1), Numbers(row.cells, c + 1);
    assert fs == g + fs[|g|..] && vs == w + vs[|w|..];
    CellOfPrefix(g, w, fs[|g|..], vs[|w|..], |w|);
    if row.cells[0].Some? {
      FilledAt(columns, row.cells, n, 0);
      NothingFilled(row.cells);
    }
    ExactTag(row.timestamp);
    ScaledExactly(columns[c], row.cells[c].value);
  }

  lemma ScaledExactly(field: string, v: real)
    ensures Scaled(field, v) == if field == "DRB.PdcpSduDelayDl.UEID (pdcpLatency)" then Double(v * (3602879701896397.0 / 36028797018963968.0)) else v
  {
    hide Double;
  }

  /**
   * The cell identity a column is named after: the value of the last filled column up
   * to it whose name mentions L3 and cellId, and 0 without one.
   */
  lemma {:induction false} ColumnCellAt(columns: seq<string>, cells: seq<Option<real>>, c: nat, k: nat)
    requires c <= |columns| <= |cells|
    ensures (forall i :: 0 <= i < c && cells[i].Some? ==> !(Contains(columns[i], "L3") && Contains(columns[i], "cellId"))) ==>
              ColumnCell(columns, cells, c) == 0.0
    ensures (&& k < c && cells[k].Some? && Contains(columns[k], "L3") && Contains(columns[k], "cellId")
             && forall i :: k < i < c && cells[i].Some? ==> !(Contains(columns[i], "L3") && Contains(columns[i], "cellId"))) ==>
              ColumnCell(columns, cells, c) == cells[k].value
  {
    hide Contains, Scaled;
    if c > 0 {
      ColumnCellAt(columns, cells, c - 1, k);
      if cells[c - 1].Some? && NamesCell(columns[c - 1]) { IdentityUnscaled(columns[c - 1], cells[c - 1].value); }
    }
  }

  lemma IdentityUnscaled(field: string, v: real)
    requires Contains(field, "L3")
    ensures Scaled(field, v) == v
  {
    hide Contains, Double;
    if field == LATENCY {
      LacksCharacter(LATENCY, "L3", '3');
    }
  }

  /** How the points of a file are called: cell-wide columns after the file, others after the UE and the kind of file. */
  lemma PointNames(f: SourceFile, field: string, cell: real, ue: string)
    requires FileType(f).Some?
    ensures Measurement(field, cell, ue, FileType(f).value, FileId(f))
         == NoSpaces(if !Contains(field, "UEID") && !Contains(field, "L3") then field + "_cell_" + Decimal(f.cell)
                     else field + (if Contains(field, "SINR") then "_cell_" + IntText(Trunc(cell)) else "")
                          + "_ue_" + ue + (if f.CuUp? then "_up" else if f.CuCp? then "_cp" else "_du"))
  {
    hide Contains, NoSpaces, IntText, Trunc, Decimal;
  }

  /** One string contains another exactly if it has it behind some beginning. */
  lemma {:induction false} ContainsExactly(s: string, t: string)
    ensures Contains(s, t) <==> exists u, v :: s == u + t + v
  {
    if t <= s {
      assert s == "" + t + s[|t|..];
    } else if s != "" {
      ContainsExactly(s[1..], t);
      if Contains(s[1..], t) {
        var u, v :| s[1..] == u + t + v;
        assert s == ([s[0]] + u) + t + v;
      }
    }
    forall u, v | s == u + t + v
      ensures Contains(s, t)
    {
      ContainsMiddle(u, t, v);
    }
  }

  lemma {:induction false} ContainsMiddle(u: string, t: string, v: string)
    ensures Contains(u + t + v, t)
  {
    if u == "" {
      assert u + t + v == t + v;
    } else {
      ContainsMiddle(u[1..], t, v);
      assert (u + t + v)[1..] == u[1..] + t + v;
    }
  }

  /** Spaces go, and nothing else. */
  lemma NoSpacesExactly(a: string, n: nat)
    ensures ' ' !in a ==> NoSpaces(a) == a
    ensures ' ' !in a ==> NoSpaces(a + seq(n, _ => ' ')) == a
  {
    if ' ' !in a {
      NoSpacesSame(a);
      NoSpacesConcat(a, seq(n, _ => ' '));
      SpacesGo(n);
      assert a + "" == a;
    }
  }

  lemma {:induction false} SpacesGo(n: nat)
    ensures NoSpaces(seq(n, _ => ' ')) == ""
  {
    var s := seq(n, _ => ' ');
    if n > 0 {
      assert s[1..] == seq(n - 1, _ => ' ');
      SpacesGo(n - 1);
    }
  }

  /** The list kept for a row: the values of its filled columns, the latency scaled, and the file's number. */
  lemma StoredRowAt(f: SourceFile, columns: seq<string>, row: Row, c: nat)
    requires c < |columns| <= |row.cells|
    ensures var s := StoredRow(f, columns, row);
            && |s| == Filled(row.cells, |columns|) + 1 && s[|s| - 1] == Id(Decimal(f.cell))
            && (row.cells[c].Some? ==>
                  Filled(row.cells, c) < |s| - 1 && s[Filled(row.cells, c)] == Number(Scaled(columns[c], row.cells[c].value)))
  {
    hide Scaled, Fields, Numbers, Filled, Decimal;
    FilledLength(columns, row.cells, |columns|);
    if row.cells[c].Some? { FilledAt(columns, row.cells, |columns|, c); }
  }

  lemma FilledNext(cells: seq<Option<real>>, c: nat)
    requires c < |cells| && cells[c].Some?
    ensures Filled(cells, c + 1) == Filled(cells, c) + 1
  {
  }

  lemma NothingFilled(cells: seq<Option<real>>)
    ensures Filled(cells, 0) == 0
  {
  }

  // ----- exactly once -----

  /** A row as the watcher meets it. */
  datatype Entry = Entry(file: SourceFile, columns: seq<string>, row: Row)

  predicate GoodEntry(e: Entry) {
    FileType(e.file).Some? && |e.row.cells| >= |e.columns|
  }

  predicate GoodEntries(q: seq<Entry>) {
    forall i :: 0 <= i < |q| ==> GoodEntry(q[i])
  }

  function EntryKey(e: Entry): Key
    requires GoodEntry(e)
  {
    KeyOf(e.file, e.row)
  }

  /** Rows share a key exactly if their timestamps and IMSIs agree, and their files are of one kind and both of cell 1 or neither. */
  lemma SameKey(a: Entry, b: Entry)
    requires GoodEntry(a) && GoodEntry(b)
    ensures EntryKey(a) == EntryKey(b) <==>
              && a.row.timestamp == b.row.timestamp && a.row.imsi == b.row.imsi
              && (a.file.CuUp? <==> b.file.CuUp?) && (a.file.CuCp? <==> b.file.CuCp?)
              && (a.file.cell == 1 <==> b.file.cell == 1)
  {
  }

  function EntryWrite(e: Entry): (w: Write)
    requires GoodEntry(e)
    ensures w.key == EntryKey(e)
  {
    WriteOf(e.file, e.columns, e.row)
  }

  /** The first n rows met. */
  function Process(s: State, q: seq<Entry>, n: nat): State
    requires n <= |q| && GoodEntries(q)
  {
    if n == 0 then s else RowStep(Process(s, q, n - 1), q[n - 1].file, q[n - 1].columns, q[n - 1].row)
  }

  predicate AllWide(es: seq<Snapshot>) {
    forall i :: 0 <= i < |es| ==> WideEnough(es[i])
  }

  /** The state after n modify events. */
  function After(es: seq<Snapshot>, n: nat): State
    requires n <= |es| && AllWide(es)
  {
    if n == 0 then FRESH else Modified(After(es, n - 1), es[n - 1])
  }

  function RowEntries(snap: Snapshot, n: nat): (q: seq<Entry>)
    requires n <= |snap.rows|
    ensures |q| == n
  {
    seq(n, i requires 0 <= i < n => Entry(snap.file, snap.columns, snap.rows[i]))
  }

  /** All rows met in n events, repetitions included. */
  function Entries(es: seq<Snapshot>, n: nat): (q: seq<Entry>)
    requires n <= |es| && AllWide(es)
    ensures GoodEntries(q)
  {
    if n == 0 then [] else
      assert WideEnough(es[n - 1]);
      Entries(es, n - 1) + RowEntries(es[n - 1], |es[n - 1].rows|)
  }

  lemma {:induction false} ProcessPrefix(s: State, q: seq<Entry>, r: seq<Entry>, n: nat)
    requires n <= |q| && GoodEntries(q) && GoodEntries(q + r)
    ensures Process(s, q + r, n) == Process(s, q, n)
  {
    hide RowStep;
    if n > 0 { ProcessPrefix(s, q, r, n - 1); }
  }

  lemma {:induction false} ReadIsProcess(s: State, q: seq<Entry>, snap: Snapshot, n: nat)
    requires WideEnough(snap) && n <= |snap.rows| && GoodEntries(q) && GoodEntries(q + RowEntries(snap, |snap.rows|))
    ensures Process(s, q + RowEntries(snap, |snap.rows|), |q| + n) == Read(Process(s, q, |q|), snap, 0, n)
  {
    hide RowStep;
    if n == 0 {
      ProcessPrefix(s, q, RowEntries(snap, |snap.rows|), |q|);
    } else {
      ReadIsProcess(s, q, snap, n - 1);
    }
  }

  /** Events one by one are the rows one by one. */
  lemma {:induction false} AfterIsProcess(es: seq<Snapshot>, n: nat)
    requires n <= |es| && AllWide(es)
    ensures After(es, n) == Process(FRESH, Entries(es, n), |Entries(es, n)|)
  {
    hide RowStep, Read;
    if n > 0 {
      AfterIsProcess(es, n - 1);
      ReadIsProcess(FRESH, Entries(es, n - 1), es[n - 1], |es[n - 1].rows|);
    }
  }

  /** The first row with the key of row j. */
  function FirstAt(q: seq<Entry>, i: nat, j: nat): (f: nat)
    requires i <= j < |q| && GoodEntries(q)
    ensures i <= f <= j && EntryKey(q[f]) == EntryKey(q[j])
    ensures forall k :: i <= k < f ==> EntryKey(q[k]) != EntryKey(q[j])
    decreases j - i
  {
    if EntryKey(q[i]) == EntryKey(q[j]) then i else FirstAt(q, i + 1, j)
  }

  lemma SameFirst(q: seq<Entry>, j: nat, k: nat)
    requires j < |q| && k < |q| && GoodEntries(q) && EntryKey(q[j]) == EntryKey(q[k])
    ensures FirstAt(q, 0, j) == FirstAt(q, 0, k)
  {
    hide FirstAt, FileType;
    var f, g := FirstAt(q, 0, j), FirstAt(q, 0, k);
    assert EntryKey(q[f]) == EntryKey(q[g]);
  }

  /** The keys of the first n rows are the consumed ones. */
  ghost predicate KeysConsumed(s: State, q: seq<Entry>, n: nat)
    requires n <= |q| && GoodEntries(q)
  {
    && (forall j :: 0 <= j < n ==> EntryKey(q[j]) in s.consumed)
    && forall k :: k in s.consumed ==> exists j :: 0 <= j < n && EntryKey(q[j]) == k
  }

  lemma {:induction false} ProcessConsumes(q: seq<Entry>, n: nat)
    requires n <= |q| && GoodEntries(q)
    ensures KeysConsumed(Process(FRESH, q, n), q, n)
  {
    hide FileType, WriteOf;
    if n > 0 {
      ProcessConsumes(q, n - 1);
      var s, t := Process(FRESH, q, n - 1), Process(FRESH, q, n);
      forall k | k in t.consumed
        ensures exists j :: 0 <= j < n && EntryKey(q[j]) == k
      {
        if k in s.consumed {
          var j :| 0 <= j < n - 1 && EntryKey(q[j]) == k;
        } else {
          assert EntryKey(q[n - 1]) == k;
        }
      }
    }
  }

  /** No key twice, and only consumed keys. */
  predicate KeysOnce(s: State) {
    && |s.sent| == |s.consumed|
    && (forall a, b :: 0 <= a < b < |s.sent| ==> s.sent[a].key != s.sent[b].key)
    && (forall a :: 0 <= a < |s.sent| ==> s.sent[a].key in s.consumed)
  }

  lemma {:induction false} ProcessSendsOnce(q: seq<Entry>, n: nat)
    requires n <= |q| && GoodEntries(q)
    ensures KeysOnce(Process(FRESH, q, n))
  {
    hide FileType, WriteOf;
    if n > 0 {
      ProcessSendsOnce(q, n - 1);
      WriteOfEntry(q[n - 1]);
      var s := Process(FRESH, q, n - 1);
      if EntryKey(q[n - 1]) !in s.consumed { OnceMore(s, EntryWrite(q[n - 1])); }
    }
  }

  lemma OnceMore(s: State, w: Write)
    requires KeysOnce(s) && w.key !in s.consumed
    ensures KeysOnce(State(s.consumed + {w.key}, s.sent + [w]))
  {
  }

  lemma {:induction false} ProcessSendsFirst(q: seq<Entry>, n: nat, j: nat)
    requires j < n <= |q| && GoodEntries(q)
    ensures EntryWrite(q[FirstAt(q, 0, j)]) in Process(FRESH, q, n).sent
  {
    hide FileType, WriteOf, FirstAt, EntryWrite;
    var s, t := Process(FRESH, q, n - 1), Process(FRESH, q, n);
    ProcessConsumes(q, n - 1);
    if j < n - 1 {
      ProcessSendsFirst(q, n - 1, j);
    } else if EntryKey(q[j]) in s.consumed {
      var i :| 0 <= i < n - 1 && EntryKey(q[i]) == EntryKey(q[j]);
      SameFirst(q, i, j);
      ProcessSendsFirst(q, n - 1, i);
    } else {
      assert FirstAt(q, 0, j) == j;
      WriteOfEntry(q[j]);
    }
  }

  lemma WriteOfEntry(e: Entry)
    requires GoodEntry(e)
    ensures EntryWrite(e) == WriteOf(e.file, e.columns, e.row)
  {
  }

  /** Rows of one record: one timestamp, one IMSI, files of one kind and both of cell 1 or neither. */
  predicate SameRecord(a: Entry, b: Entry) {
    && a.row.timestamp == b.row.timestamp && a.row.imsi == b.row.imsi
    && (a.file.CuUp? <==> b.file.CuUp?) && (a.file.CuCp? <==> b.file.CuCp?)
    && (a.file.cell == 1 <==> b.file.cell == 1)
  }

  lemma SameRecords(q: seq<Entry>, j: nat)
    requires j < |q| && GoodEntries(q)
    ensures forall i :: 0 <= i < |q| ==> (EntryKey(q[i]) == EntryKey(q[j]) <==> SameRecord(q[i], q[j]))
  {
    hide FileType, SameRecord;
    forall i | 0 <= i < |q|
      ensures EntryKey(q[i]) == EntryKey(q[j]) <==> SameRecord(q[i], q[j])
    {
      SameKeyRecord(q[i], q[j]);
    }
  }

  lemma SameKeyRecord(a: Entry, b: Entry)
    requires GoodEntry(a) && GoodEntry(b)
    ensures EntryKey(a) == EntryKey(b) <==> SameRecord(a, b)
  {
    SameKey(a, b);
  }

  /**
   * Exactly once: after any modify events each row met has exactly one write, and
   * it is what the first row of its record gives; rows of different records have
   * different writes, and there is no other write.
   */
  lemma ExactlyOnce(es: seq<Snapshot>, n: nat, j: nat, k: nat)
    requires n <= |es| && AllWide(es) && j < |Entries(es, n)| && k < |Entries(es, n)|
    ensures var q, s := Entries(es, n), After(es, n);
            var f, g := FirstAt(q, 0, j), FirstAt(q, 0, k);
            && SameRecord(q[f], q[j]) && (forall i :: 0 <= i < f ==> !SameRecord(q[i], q[j]))
            && EntryWrite(q[f]) in s.sent
            && (SameRecord(q[j], q[k]) ==> f == g)
            && (!SameRecord(q[j], q[k]) ==> EntryWrite(q[f]) != EntryWrite(q[g]))
    ensures var s := After(es, n); forall a, b :: 0 <= a < b < |s.sent| ==> s.sent[a] != s.sent[b]
    ensures var q, s := Entries(es, n), After(es, n);
            forall w :: w in s.sent ==> exists i :: 0 <= i < |q| && FirstAt(q, 0, i) == i && w == EntryWrite(q[i])
  {
    hide FileType, WriteOf, FirstAt, EntryWrite, Process, After, Entries, FirstWrites;
    var q := Entries(es, n);
    AfterIsProcess(es, n);
    ProcessSendsOnce(q, |q|);
    ProcessSendsFirst(q, |q|, j);
    SameRecords(q, j);
    SameRecords(q, k);
    if SameRecord(q[j], q[k]) { SameFirst(q, j, k); }
    SentInOrder(es, n);
    WritesAreFirst(q, |q|);
  }

  /** What the first n rows send: the writes, in order, of those that no earlier row shares its record with. */
  function FirstWrites(q: seq<Entry>, n: nat): seq<Write>
    requires n <= |q| && GoodEntries(q)
  {
    if n == 0 then []
    else if exists i :: 0 <= i < n - 1 && SameRecord(q[i], q[n - 1]) then FirstWrites(q, n - 1)
    else FirstWrites(q, n - 1) + [EntryWrite(q[n - 1])]
  }

  lemma {:induction false} WritesAreFirst(q: seq<Entry>, n: nat)
    requires n <= |q| && GoodEntries(q)
    ensures forall w :: w in FirstWrites(q, n) ==> exists i :: 0 <= i < n && FirstAt(q, 0, i) == i && w == EntryWrite(q[i])
  {
    hide FileType, EntryWrite, SameRecord, FirstAt;
    if n > 0 {
      WritesAreFirst(q, n - 1);
      SameRecords(q, n - 1);
      var f := FirstAt(q, 0, n - 1);
      assert SameRecord(q[f], q[n - 1]);
    }
  }

  lemma {:induction false} ProcessFirsts(q: seq<Entry>, n: nat)
    requires n <= |q| && GoodEntries(q)
    ensures Process(FRESH, q, n).sent == FirstWrites(q, n)
  {
    hide FileType, WriteOf, EntryWrite, SameRecord;
    if n > 0 {
      ProcessFirsts(q, n - 1);
      ProcessConsumes(q, n - 1);
      SameRecords(q, n - 1);
      WriteOfEntry(q[n - 1]);
    }
  }

  /** All that has been sent after any modify events, in order. */
  lemma SentInOrder(es: seq<Snapshot>, n: nat)
    requires n <= |es| && AllWide(es)
    ensures After(es, n).sent == FirstWrites(Entries(es, n), |Entries(es, n)|)
  {
    hide FileType, Process, After, Entries, FirstWrites;
    AfterIsProcess(es, n);
    ProcessFirsts(Entries(es, n), |Entries(es, n)|);
  }

  /** A file whose rows differ in timestamp or IMSI: reading it sends every row, in order. */
  lemma {:induction false} FreshFile(snap: Snapshot, n: nat)
    requires WideEnough(snap) && n <= |snap.rows|
    requires forall i, j :: 0 <= i < j < |snap.rows| ==>
               snap.rows[i].timestamp != snap.rows[j].timestamp || snap.rows[i].imsi != snap.rows[j].imsi
    ensures Read(FRESH, snap, 0, n).sent
         == seq(n, i requires 0 <= i < n => WriteOf(snap.file, snap.columns, snap.rows[i]))
    ensures forall k :: k in Read(FRESH, snap, 0, n).consumed ==>
              exists i :: 0 <= i < n && k.0 == snap.rows[i].timestamp && k.1 == snap.rows[i].imsi
  {
    hide FileType, WriteOf;
    if n > 0 {
      FreshFile(snap, n - 1);
      var was, key := Read(FRESH, snap, 0, n - 1), KeyOf(snap.file, snap.rows[n - 1]);
      assert key !in was.consumed;
      forall k | k in was.consumed + {key}
        ensures exists i :: 0 <= i < n && k.0 == snap.rows[i].timestamp && k.1 == snap.rows[i].imsi
      {
        if k in was.consumed {
          var i :| 0 <= i < n - 1 && k.0 == snap.rows[i].timestamp && k.1 == snap.rows[i].imsi;
        } else {
          assert k.0 == snap.rows[n - 1].timestamp;
        }
      }
    }
  }

  // ----- files only grow -----

  /** Rows of a file seen when its last event among the first n came. */
  function Seen(es: seq<Snapshot>, n: nat, f: SourceFile): seq<Row>
    requires n <= |es|
  {
    if n == 0 then [] else if es[n - 1].file == f then es[n - 1].rows else Seen(es, n - 1, f)
  }

  /** Each event finds what the file's event before found, and maybe more. */
  predicate AppendOnly(es: seq<Snapshot>) {
    forall i :: 0 <= i < |es| ==> Seen(es, i, es[i].file) <= es[i].rows
  }

  /** Reading only what is new. */
  function Incremental(es: seq<Snapshot>, n: nat): State
    requires n <= |es| && AllWide(es) && AppendOnly(es)
  {
    if n == 0 then FRESH
    else
      var snap := es[n - 1];
      Read(Incremental(es, n - 1), snap, |Seen(es, n - 1, snap.file)|, |snap.rows|)
  }

  lemma {:induction false} ReadMonotone(s: State, snap: Snapshot, hi: nat)
    requires WideEnough(snap) && hi <= |snap.rows|
    ensures s.consumed <= Read(s, snap, 0, hi).consumed
    ensures forall i :: 0 <= i < hi ==> KeyOf(snap.file, snap.rows[i]) in Read(s, snap, 0, hi).consumed
  {
    hide WriteOf, FileType;
    if hi > 0 { ReadMonotone(s, snap, hi - 1); }
  }

  /** Rows seen are consumed. */
  lemma {:induction false} SeenConsumed(es: seq<Snapshot>, n: nat, f: SourceFile)
    requires n <= |es| && AllWide(es) && FileType(f).Some?
    ensures forall i :: 0 <= i < |Seen(es, n, f)| ==> KeyOf(f, Seen(es, n, f)[i]) in After(es, n).consumed
  {
    hide RowStep, FileType, KeyOf, Read;
    if n > 0 {
      ReadMonotone(After(es, n - 1), es[n - 1], |es[n - 1].rows|);
      if es[n - 1].file != f { SeenConsumed(es, n - 1, f); }
    }
  }

  /** Consumed rows at the front change nothing. */
  lemma {:induction false} SkipConsumed(s: State, snap: Snapshot, k: nat, hi: nat)
    requires WideEnough(snap) && k <= hi <= |snap.rows|
    requires forall i :: 0 <= i < k ==> KeyOf(snap.file, snap.rows[i]) in s.consumed
    ensures Read(s, snap, 0, hi) == Read(s, snap, k, hi)
    decreases hi
  {
    hide WriteOf, FileType, KeyOf;
    if hi > k {
      SkipConsumed(s, snap, k, hi - 1);
    } else if hi > 0 {
      SkipConsumed(s, snap, k - 1, hi - 1);
    }
  }

  /** Re-reading whole files that only grow is the same as reading what is new. */
  lemma {:induction false} RereadingIsIncremental(es: seq<Snapshot>, n: nat)
    requires n <= |es| && AllWide(es) && AppendOnly(es)
    ensures After(es, n) == Incremental(es, n)
  {
    hide RowStep, FileType, KeyOf, Read;
    if n > 0 {
      RereadingIsIncremental(es, n - 1);
      var snap := es[n - 1];
      var old_ := Seen(es, n - 1, snap.file);
      FileKnown(snap);
      SeenConsumed(es, n - 1, snap.file);
      assert old_ == snap.rows[..|old_|];
      assert forall i :: 0 <= i < |old_| ==> old_[i] == snap.rows[i];
      SkipConsumed(After(es, n - 1), snap, |old_|, |snap.rows|);
    }
  }

  lemma FileKnown(snap: Snapshot)
    requires WideEnough(snap)
    ensures FileType(snap.file).Some?
  {
  }

  lemma {:induction false} ReadJoins(s: State, snap: Snapshot, k: nat, hi: nat)
    requires WideEnough(snap) && k <= hi <= |snap.rows|
    ensures Read(Read(s, snap, 0, k), snap, k, hi) == Read(s, snap, 0, hi)
    decreases hi
  {
    hide RowStep;
    if hi > k { ReadJoins(s, snap, k, hi - 1); }
  }

  lemma {:induction false} ReadSame(s: State, snap: Snapshot, later: Snapshot, n: nat)
    requires WideEnough(snap) && WideEnough(later) && snap.file == later.file && snap.columns == later.columns
    requires snap.rows <= later.rows && n <= |snap.rows|
    ensures Read(s, snap, 0, n) == Read(s, later, 0, n)
  {
    hide RowStep;
    if n > 0 { ReadSame(s, snap, later, n - 1); }
  }

  /** With one growing file the outcome is that of reading its last state once. */
  lemma {:induction false} OneFile(es: seq<Snapshot>, n: nat)
    requires 0 < n <= |es| && AllWide(es) && AppendOnly(es)
    requires forall i :: 0 <= i < n ==> es[i].file == es[0].file && es[i].columns == es[0].columns
    ensures After(es, n) == Modified(FRESH, es[n - 1])
  {
    hide RowStep, FileType, Read;
    if n > 1 {
      var was, snap := es[n - 2], es[n - 1];
      OneFile(es, n - 1);
      assert Seen(es, n - 1, snap.file) == was.rows;
      SeenConsumed(es, n - 1, snap.file);
      FileKnown(snap);
      ReadSame(FRESH, was, snap, |was.rows|);
      assert forall i :: 0 <= i < |was.rows| ==> was.rows[i] == snap.rows[i];
      SkipConsumed(After(es, n - 1), snap, |was.rows|, |snap.rows|);
      ReadJoins(FRESH, snap, |was.rows|, |snap.rows|);
    }
  }

  // ----- file names and keys -----

  function FileName(f: SourceFile): string {
    match f
    case CuUp(n) => "cu-up-cell-" + Decimal(n) + ".txt"
    case CuCp(n) => "cu-cp-cell-" + Decimal(n) + ".txt"
    case Du(n) => "du-cell-" + Decimal(n) + ".txt"
  }

  /** The pattern stem[lo-hi].txt at the start of a name; its dot stands for any character. */
  predicate MatchesAt(name: string, stem: string, lo: char, hi: char) {
    && stem <= name && |stem| + 5 <= |name|
    && lo <= name[|stem|] <= hi && name[|stem| + 2..|stem| + 5] == "txt"
  }

  /** re.search */
  predicate Search(name: string, stem: string, lo: char, hi: char) {
    MatchesAt(name, stem, lo, hi) || (name != "" && Search(name[1..], stem, lo, hi))
  }

  /** The third part of the key after the five searches, of which a later one wins; None if none succeeds. */
  function SearchedType(name: string): Option<nat> {
    if Search(name, "cu-cp-cell-", '1', '1') then Some(4)
    else if Search(name, "cu-up-cell-", '1', '1') then Some(3)
    else if Search(name, "du-cell-", '2', '5') then Some(2)
    else if Search(name, "cu-cp-cell-", '2', '5') then Some(1)
    else if Search(name, "cu-up-cell-", '2', '5') then Some(0)
    else None
  }

  lemma NotPrefix(t: string, s: string, i: nat)
    requires i < |t| && (i >= |s| || s[i] != t[i])
    ensures !(t <= s)
  {
    if |t| <= |s| { assert s[..|t|][i] == s[i]; }
  }

  /** Where two characters in a row of the stem occur nowhere, the pattern is not found. */
  lemma {:induction false} NotFound(name: string, stem: string, lo: char, hi: char)
    requires |stem| >= 2 && forall j :: 0 <= j < |name| - 1 ==> name[j] != stem[0] || name[j + 1] != stem[1]
    ensures !Search(name, stem, lo, hi)
  {
    NotPrefix(stem, name, if |name| > 0 && name[0] == stem[0] then 1 else 0);
    if name != "" {
      NotFound(name[1..], stem, lo, hi);
    }
  }

  /** The stems, and the tail of a name after its first character, in which no stem starts again. */
  lemma NoLaterStem(stem: string, d: string)
    requires stem in ["cu-up-cell-", "cu-cp-cell-", "du-cell-"] && AllDigitText(d)
    ensures var t := (stem + d + ".txt")[1..];
            forall j :: 0 <= j < |t| - 1 ==> t[j + 1] != 'u' || (t[j] != 'c' && t[j] != 'd')
  {
    var t := (stem + d + ".txt")[1..];
    forall j | 0 <= j < |t| - 1
      ensures t[j + 1] != 'u' || (t[j] != 'c' && t[j] != 'd')
    {
      if j + 2 < |stem| {
        assert t[j + 1] == stem[j + 2] && t[j] == stem[j + 1];
        StemLetters(stem, j + 2);
      } else if j + 2 < |stem| + |d| {
        assert t[j + 1] == d[j + 2 - |stem|];
      } else {
        assert t[j + 1] == ".txt"[j + 2 - |stem| - |d|];
      }
    }
  }

  predicate AllDigitText(d: string) {
    d != "" && forall i :: 0 <= i < |d| ==> IsDigit(d[i])
  }

  lemma StemLetters(stem: string, i: nat)
    requires stem in ["cu-up-cell-", "cu-cp-cell-", "du-cell-"] && 2 <= i < |stem|
    ensures stem[i] != 'u' || (stem[i - 1] != 'c' && stem[i - 1] != 'd')
  {
    if stem == "cu-up-cell-" {
      assert stem[3] == 'u' && stem[2] == '-';
    } else if stem == "cu-cp-cell-" {
    } else {
    }
  }

  /** Every pattern is found at the start of a name or not at all. */
  lemma FoundAtStart(stem: string, d: string, p: string, lo: char, hi: char)
    requires stem in ["cu-up-cell-", "cu-cp-cell-", "du-cell-"] && p in ["cu-up-cell-", "cu-cp-cell-", "du-cell-"]
    requires AllDigitText(d)
    ensures var name := stem + d + ".txt"; Search(name, p, lo, hi) == MatchesAt(name, p, lo, hi)
  {
    hide MatchesAt;
    var name := stem + d + ".txt";
    NoLaterStem(stem, d);
    assert p[1] == 'u' && (p[0] == 'c' || p[0] == 'd');
    NotFound(name[1..], p, lo, hi);
  }

  /** A name matches the pattern of its own stem exactly for a single digit in the range, and no other. */
  lemma MatchesOwn(stem: string, d: string, p: string, lo: char, hi: char)
    requires stem in ["cu-up-cell-", "cu-cp-cell-", "du-cell-"] && p in ["cu-up-cell-", "cu-cp-cell-", "du-cell-"]
    requires AllDigitText(d)
    ensures MatchesAt(stem + d + ".txt", p, lo, hi) <==> p == stem && |d| == 1 && lo <= d[0] <= hi
  {
    var name := stem + d + ".txt";
    if p == stem {
      OwnTail(stem, d);
    } else {
      assert p[0] != stem[0] || p[3] != stem[3];
      assert name[0] == stem[0] && name[3] == stem[3];
    }
  }

  lemma OwnTail(stem: string, d: string)
    requires AllDigitText(d)
    ensures var name := stem + d + ".txt";
            && stem <= name && name[|stem|] == d[0]
            && (|name| >= |stem| + 5 && name[|stem| + 2..|stem| + 5] == "txt" <==> |d| == 1)
  {
    var name := stem + d + ".txt";
    if |d| > 1 {
      assert name[|stem| + 2] == if |d| == 2 then '.' else d[2];
      assert name[|stem| + 2..|stem| + 5][0] == name[|stem| + 2];
    }
  }

  lemma SingleDigit(n: nat)
    ensures |Decimal(n)| == 1 <==> n < 10
    ensures n < 10 ==> Decimal(n)[0] == DigitChar(n)
  {
    if n >= 10 { assert Decimal(n / 10) != ""; }
  }

  /** The type of a file is what the five searches on its name give, and its number the digits before ".txt". */
  lemma TypeByName(f: SourceFile)
    ensures SearchedType(FileName(f)) == FileType(f)
    ensures FileName(f) == (match f
                            case CuUp(_) => "cu-up-cell-"
                            case CuCp(_) => "cu-cp-cell-"
                            case Du(_) => "du-cell-") + FileId(f) + ".txt"
  {
    hide Search, MatchesAt, Decimal;
    var d := Decimal(f.cell);
    var stem := if f.CuUp? then "cu-up-cell-" else if f.CuCp? then "cu-cp-cell-" else "du-cell-";
    SingleDigit(f.cell);
    assert AllDigitText(d);
    FoundHere(stem, d, "cu-cp-cell-", '1', '1');
    FoundHere(stem, d, "cu-up-cell-", '1', '1');
    FoundHere(stem, d, "du-cell-", '2', '5');
    FoundHere(stem, d, "cu-cp-cell-", '2', '5');
    FoundHere(stem, d, "cu-up-cell-", '2', '5');
    StemsDiffer();
  }

  lemma FoundHere(stem: string, d: string, p: string, lo: char, hi: char)
    requires stem in ["cu-up-cell-", "cu-cp-cell-", "du-cell-"] && p in ["cu-up-cell-", "cu-cp-cell-", "du-cell-"]
    requires AllDigitText(d)
    ensures Search(stem + d + ".txt", p, lo, hi) <==> p == stem && |d| == 1 && lo <= d[0] <= hi
  {
    hide Search, MatchesAt;
    FoundAtStart(stem, d, p, lo, hi);
    MatchesOwn(stem, d, p, lo, hi);
  }

  lemma StemsDiffer()
    ensures "cu-up-cell-" != "cu-cp-cell-" && "cu-up-cell-" != "du-cell-" && "cu-cp-cell-" != "du-cell-"
  {
    assert "cu-up-cell-"[3] != "cu-cp-cell-"[3];
    assert "cu-up-cell-"[0] != "du-cell-"[0];
    assert "cu-cp-cell-"[0] != "du-cell-"[0];
  }

  /**
   * The watcher is called for files of every cell number, but the key of a row stays
   * unset exactly for distributed units outside 2 to 5 and central units outside 1 to 5.
   * Otherwise its third part is 0 to 2 for cells 2 to 5 and 3 or 4 for cell 1.
   */
  lemma KeylessFiles(f: SourceFile)
    ensures SearchedType(FileName(f)).None? <==> !(2 <= f.cell <= 5 || (f.cell == 1 && !f.Du?))
    ensures 2 <= f.cell <= 5 ==> SearchedType(FileName(f)) == Some(if f.CuUp? then 0 else if f.CuCp? then 1 else 2)
    ensures f.cell == 1 && !f.Du? ==> SearchedType(FileName(f)) == Some(if f.CuUp? then 3 else 4)
  {
    hide SearchedType, FileName;
    TypeByName(f);
  }

  /** du-cell-1.txt has no key. */
  lemma DuCellOne()
    ensures FileName(Du(1)) == "du-cell-1.txt" && SearchedType("du-cell-1.txt") == None
  {
    hide SearchedType;
    SingleDigit(1);
    assert DigitChar(1) == '1';
    assert FileName(Du(1)) == "du-cell-1.txt";
    KeylessFiles(Du(1));
  }

  // ----- names of SINR points -----

  lemma {:induction false} NoSpacesConcat(a: string, b: string)
    ensures NoSpaces(a + b) == NoSpaces(a) + NoSpaces(b)
  {
    if a == "" {
      assert a + b == b;
    } else {
      assert (a + b)[0] == a[0] && (a + b)[1..] == a[1..] + b;
      NoSpacesConcat(a[1..], b);
    }
  }

  lemma {:induction false} NoSpacesSame(a: string)
    requires ' ' !in a
    ensures NoSpaces(a) == a
  {
    if a != "" {
      assert a[0] in a;
      NoSpacesSame(a[1..]);
    }
  }

  /** The name a SINR point is meant to have: the column, the latest cell identity, the UE. */
  function SinrName(field: string, cell: real, ue: string, fileType: nat): string {
    NoSpaces(field + ("_cell_" + IntText(Trunc(cell))) + "_ue_" + ue + TypeSuffix(fileType))
  }

  /**
   * A SINR column is named after the latest cell identity exactly if its name
   * mentions a UE or L3; else it is named after the file.
   */
  lemma SinrNamedByCell(field: string, cell: real, ue: string, fileType: nat, id: nat)
    requires Contains(field, "SINR")
    ensures Measurement(field, cell, ue, fileType, Decimal(id)) == SinrName(field, cell, ue, fileType) <==> !CellWide(field)
    ensures CellWide(field) ==> Measurement(field, cell, ue, fileType, Decimal(id)) == NoSpaces(field) + "_cell_" + Decimal(id)
  {
    hide Contains, NoSpaces, IntText, TypeSuffix, Decimal, Trunc;
    if CellWide(field) {
      var d, x, y := Decimal(id), IntText(Trunc(cell)), ue + TypeSuffix(fileType);
      assert AllDigitText(d);
      NoSpacesConcat(field, "_cell_" + d);
      NoSpacesSame("_cell_" + d);
      assert field + "_cell_" + d == field + ("_cell_" + d);
      assert NoSpaces(field) + ("_cell_" + d) == NoSpaces(field) + "_cell_" + d;
      var tail := x + "_ue_" + y;
      assert field + ("_cell_" + x) + "_ue_" + ue + TypeSuffix(fileType) == field + ("_cell_" + tail);
      NoSpacesConcat(field, "_cell_" + tail);
      NoSpacesConcat("_cell_", tail);
      NoSpacesSame("_cell_");
      NoSpacesConcat(x, "_ue_" + y);
      assert tail == x + ("_ue_" + y);
      NoSpacesConcat("_ue_", y);
      NoSpacesSame("_ue_");
      DigitsOnly(NoSpaces(field) + "_cell_", d, NoSpaces(x), NoSpaces(y));
    }
  }

  lemma DigitsOnly(p: string, d: string, x: string, y: string)
    requires AllDigitText(d)
    ensures p + d != p + (x + ("_ue_" + y))
  {
    var t := x + ("_ue_" + y);
    assert t[|x|] == '_' && !IsDigit('_');
    assert (p + d)[|p|..] == d && (p + t)[|p|..] == t;
  }

  /** A column "servingSINR" of the third file, after the identity of cell 4, is named after cell 3. */
  lemma SinrNamedByFile(ue: string)
    ensures Measurement("servingSINR", 4.0, ue, 1, Decimal(3)) == "servingSINR_cell_3"
    ensures Measurement("servingSINR", 4.0, ue, 1, Decimal(3)) != SinrName("servingSINR", 4.0, ue, 1)
  {
    hide Contains, NoSpaces, SinrName, Measurement;
    var f := "servingSINR";
    SingleDigit(3);
    assert DigitChar(3) == '3';
    assert Contains(f, "SINR") by { HasSuffix("serving", "SINR"); assert "serving" + "SINR" == f; }
    LacksCharacter(f, "UEID", 'U');
    LacksCharacter(f, "L3", 'L');
    SinrNamedByCell(f, 4.0, ue, 1, 3);
    NoSpacesSame(f);
  }

  lemma {:induction false} HasSuffix(a: string, t: string)
    ensures Contains(a + t, t)
  {
    if a == "" {
      assert a + t == t;
    } else {
      HasSuffix(a[1..], t);
      assert (a + t)[1..] == a[1..] + t && a + t != "";
    }
  }

  lemma {:induction false} LacksCharacter(s: string, t: string, c: char)
    requires c in t && c !in s
    ensures !Contains(s, t)
  {
    if s != "" {
      LacksCharacter(s[1..], t, c);
    }
    var i :| 0 <= i < |t| && t[i] == c;
    NotPrefix(t, s, i);
  }
}
