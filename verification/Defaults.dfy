/** Changing the default of a select column. */
module Defaults {
  import opened Cells
  import opened Reads
  import opened States
  import opened Schema

  // Empty cells of a select column read as the column's default.  Before a new default takes
  // over, the old one is written into every row that was relying on it.

  /** Listed rows whose cell in `col` is missing, hidden or blank. */
  function EmptyRows(m: CellMap, t: string, col: string): set<string> {
    set r | r in ListedRows(m, t) && (col !in RowValues(m, t, r) || ValueIsEmpty(RowValues(m, t, r)[col]))
  }

  /** The old default that a patch makes necessary to write down. */
  function Retiring(v: Values, t: string, col: string, p: Patch): Option<Value> {
    var d := SelectDefault(v, t, col);
    if p.default.Some? && d.Some? && d.value != p.default.value then d else None
  }

  function RelyingRows(m: CellMap, t: string, col: string, p: Patch): set<string> {
    if Retiring(ValuesOf(m), t, col, p).Some? then EmptyRows(m, t, col) else {}
  }

  ghost predicate IsFill(u: Update, rows: set<string>, t: string, col: string, value: Value) {
    u.id.row in rows && u == LocalUpdate(CellId(t, u.id.row, col), value, u.cell.ts)
  }

  /** `us` writes `value` into column `col` of exactly `rows`, under stamps past `low`. */
  ghost predicate Fills(us: seq<Update>, rows: set<string>, t: string, col: string, value: Value, low: Timestamp) {
    && DistinctIds(us)
    && (forall u :: u in us ==> IsFill(u, rows, t, col, value) && low < u.cell.ts)
    && (forall r :: r in rows ==> exists u :: u in us && u.id.row == r)
  }

  /** After the fill and the schema change: filled rows hold the old default in `col`, and no
      other data cell and no cutoff mark has changed. */
  ghost predicate Filled(m: CellMap, n: CellMap, rows: set<string>, t: string, col: string, value: Value,
                         low: Timestamp) {
    && SameMarks(ValuesOf(m), ValuesOf(n))
    && (forall r :: r in rows ==> FilledAt(n, CellId(t, r, col), value, low))
    && (forall id: CellId :: id.table == t && !(id.col == col && id.row in rows) ==>
          (id in n <==> id in m) && (id in m ==> n[id] == m[id]))
  }

  ghost predicate FilledAt(n: CellMap, id: CellId, value: Value, low: Timestamp) {
    id in n && n[id].value == value && low < n[id].ts
  }

  ghost predicate IsPatch(us: seq<Update>) {
    forall u :: u in us ==> KindOf(u.id.table) == SchemaTable && !MarksCutoff(u.id)
  }

  lemma PatchMarksNothing(table: string, col: string, p: Patch, ts: Timestamp)
    requires ts + COLUMN_SPAN <= U64_MAX
    ensures IsPatch(UpdateColumnUpdates(table, col, p, ts))
  {
    PatchCellsAreNamed(ColumnRow(table, col), PatchFields(p), ts);
  }

  lemma {:induction false} PatchCellsAreNamed(row: string, fields: seq<(string, Option<Value>)>, ts: Timestamp)
    requires ts + |fields| <= U64_MAX
    ensures forall u :: u in PatchUpdates(row, fields, ts) ==> exists i :: 0 <= i < |fields| && fields[i].0 == u.id.col
  {
    if fields != [] {
      PatchCellsAreNamed(row, fields[1..], if fields[0].1.Some? then ts + 1 else ts);
      forall u | u in PatchUpdates(row, fields, ts) ensures exists i :: 0 <= i < |fields| && fields[i].0 == u.id.col {
        if u in PatchUpdates(row, fields[1..], if fields[0].1.Some? then ts + 1 else ts) {
          var i :| 0 <= i < |fields[1..]| && fields[1..][i].0 == u.id.col;
          assert fields[i + 1].0 == u.id.col;
        }
      }
    }
  }

  lemma FillThenPatch(s: State, fill: seq<Update>, patch: seq<Update>, rows: set<string>, t: string, col: string,
                      value: Value)
    requires ClockCovers(s) && KindOf(t) == DataTable
    requires Fills(fill, rows, t, col, value, s.clock) && IsPatch(patch)
    ensures Filled(s.cells, PutAll(PutAll(s.cells, fill), patch), rows, t, col, value, s.clock)
  {
    var m, mid := s.cells, PutAll(s.cells, fill);
    var n := PutAll(mid, patch);
    forall id | MarksCutoff(id) ensures (id in n <==> id in m) && (id in m ==> n[id] == m[id]) {
      PutAllElsewhere(m, fill, id);
      PutAllElsewhere(mid, patch, id);
    }
    forall r | r in rows ensures FilledAt(n, CellId(t, r, col), value, s.clock) {
      var id := CellId(t, r, col);
      PutAllElsewhere(mid, patch, id);
      FreshReplacesAt(m, fill, s.clock, id);
      var u :| u in fill && u.id.row == r;
      assert IsFill(u, rows, t, col, value) && u.id == id;
    }
    forall id: CellId | id.table == t && !(id.col == col && id.row in rows)
      ensures (id in n <==> id in m) && (id in m ==> n[id] == m[id])
    {
      forall u | u in fill ensures u.id != id { assert IsFill(u, rows, t, col, value); }
      PutAllElsewhere(m, fill, id);
      PutAllElsewhere(mid, patch, id);
    }
  }

  // ---- what rows read afterwards ----

  /** No deletion of the table or the column is stamped past the clock. */
  predicate CutoffsBelow(v: Values, t: string, col: string, clock: Timestamp) {
    && (TableFloor(v, t).Some? ==> TableFloor(v, t).value <= clock)
    && (ColumnCutoff(v, t, col).Some? ==> ColumnCutoff(v, t, col).value <= clock)
  }

  lemma SameVisibility(m: CellMap, n: CellMap, rows: set<string>, t: string, col: string, value: Value,
                       low: Timestamp, id: CellId)
    requires Filled(m, n, rows, t, col, value, low) && id.table == t && !(id.col == col && id.row in rows)
    ensures id in n <==> id in m
    ensures id in m ==> n[id] == m[id] && (VisibleCell(n, id) <==> VisibleCell(m, id))
  {
    if id in m {
      StaleFromMarks(ValuesOf(m), ValuesOf(n), id, m[id].ts);
    }
  }

  lemma FilledVisible(m: CellMap, n: CellMap, rows: set<string>, t: string, col: string, value: Value, low: Timestamp,
                      r: string)
    requires Filled(m, n, rows, t, col, value, low) && r in rows && !IsReserved(col)
    requires CutoffsBelow(ValuesOf(m), t, col, low)
    ensures VisibleCell(n, CellId(t, r, col)) && n[CellId(t, r, col)].value == value
  {
    var id := CellId(t, r, col);
    assert FilledAt(n, id, value, low);
    StaleFromMarks(ValuesOf(m), ValuesOf(n), id, n[id].ts);
  }

  /** What a row reads in `col` before any default applies. */
  function Own(m: CellMap, t: string, r: string, col: string): Option<Value> {
    var id := CellId(t, r, col);
    if VisibleCell(m, id) then Some(m[id].value) else None
  }

  lemma OwnIsRowValue(m: CellMap, t: string, r: string, col: string)
    ensures col in RowValues(m, t, r) <==> Own(m, t, r, col).Some?
    ensures col in RowValues(m, t, r) ==> Own(m, t, r, col) == Some(RowValues(m, t, r)[col])
  {
    assert VisibleCell(m, CellId(t, r, col)) ==> CellId(t, r, col).col == col;
  }

  /** A row keeps what it reads in the column: its own value, or the old default, which is
      now its own. */
  lemma RowKeepsReading(m: CellMap, n: CellMap, t: string, col: string, value: Value, low: Timestamp, r: string)
    requires Filled(m, n, EmptyRows(m, t, col), t, col, value, low) && !IsReserved(col)
    requires CutoffsBelow(ValuesOf(m), t, col, low)
    requires SelectDefault(ValuesOf(m), t, col) == Some(value) && !ValueIsEmpty(value)
    requires r in ListedRows(m, t)
    ensures ReadCell(n, t, r, col) == ReadCell(m, t, r, col)
  {
    OwnIsRowValue(m, t, r, col);
    OwnIsRowValue(n, t, r, col);
    if r in EmptyRows(m, t, col) {
      FilledVisible(m, n, EmptyRows(m, t, col), t, col, value, low, r);
    } else {
      SameVisibility(m, n, EmptyRows(m, t, col), t, col, value, low, CellId(t, r, col));
    }
  }

  /** Filling adds no row and drops none. */
  lemma SameListing(m: CellMap, n: CellMap, t: string, col: string, value: Value, low: Timestamp, r: string)
    requires Filled(m, n, EmptyRows(m, t, col), t, col, value, low) && !IsReserved(col)
    requires CutoffsBelow(ValuesOf(m), t, col, low)
    ensures Listed(m, t, r) <==> Listed(n, t, r)
  {
    var rows := EmptyRows(m, t, col);
    CutoffsFromMarks(ValuesOf(m), ValuesOf(n), t, col);
    SameVisibility(m, n, rows, t, col, value, low, CellId(t, r, ROW_DELETED));
    assert RowDeleted(ValuesOf(m), t, r) <==> RowDeleted(ValuesOf(n), t, r);
    if Listed(m, t, r) {
      StillListed(m, n, t, col, value, low, r);
    }
    if Listed(n, t, r) && r !in rows {
      NewlyListedWasListed(m, n, rows, t, col, value, low, r);
    }
  }

  lemma StillListed(m: CellMap, n: CellMap, t: string, col: string, value: Value, low: Timestamp, r: string)
    requires Filled(m, n, EmptyRows(m, t, col), t, col, value, low)
    requires CutoffsBelow(ValuesOf(m), t, col, low) && TableFloor(ValuesOf(m), t) == TableFloor(ValuesOf(n), t)
    requires Listed(m, t, r) && !RowDeleted(ValuesOf(n), t, r)
    ensures Listed(n, t, r)
  {
    var rows := EmptyRows(m, t, col);
    if r in rows {
      assert FilledAt(n, CellId(t, r, col), value, low);
    } else {
      forall id | id in m && id.table == t && id.row == r ensures id in n && n[id] == m[id] {}
    }
  }

  lemma NewlyListedWasListed(m: CellMap, n: CellMap, rows: set<string>, t: string, col: string, value: Value,
                             low: Timestamp, r: string)
    requires Filled(m, n, rows, t, col, value, low) && r !in rows
    requires TableFloor(ValuesOf(m), t) == TableFloor(ValuesOf(n), t)
    requires Listed(n, t, r) && !RowDeleted(ValuesOf(m), t, r)
    ensures Listed(m, t, r)
  {
    forall id | id in n && id.table == t && id.row == r ensures id in m && n[id] == m[id] {}
  }

  /** Changing a select column's non-empty default leaves the rows listed, and what each of
      them reads in that column, as they were. */
  lemma ExistingRowsKeepReading(s: State, fill: seq<Update>, t: string, col: string, p: Patch, ts: Timestamp)
    requires ClockCovers(s) && KindOf(t) == DataTable && !IsReserved(col)
    requires CutoffsBelow(ValuesOf(s.cells), t, col, s.clock) && ts + COLUMN_SPAN <= U64_MAX
    requires Retiring(ValuesOf(s.cells), t, col, p).Some?
    requires Fills(fill, EmptyRows(s.cells, t, col), t, col, Retiring(ValuesOf(s.cells), t, col, p).value, s.clock)
    ensures var n := PutAll(PutAll(s.cells, fill), UpdateColumnUpdates(t, col, p, ts));
      && ListedRows(n, t) == ListedRows(s.cells, t)
      && forall r :: r in ListedRows(s.cells, t) ==> ReadCell(n, t, r, col) == ReadCell(s.cells, t, r, col)
  {
    var d := Retiring(ValuesOf(s.cells), t, col, p).value;
    PatchMarksNothing(t, col, p, ts);
    FillThenPatch(s, fill, UpdateColumnUpdates(t, col, p, ts), EmptyRows(s.cells, t, col), t, col, d);
    var n := PutAll(PutAll(s.cells, fill), UpdateColumnUpdates(t, col, p, ts));
    forall r ensures Listed(s.cells, t, r) <==> Listed(n, t, r) {
      SameListing(s.cells, n, t, col, d, s.clock, r);
    }
    forall r ensures r in ListedRows(n, t) <==> r in ListedRows(s.cells, t) {
      ListedIffInListedRows(n, t, r);
      ListedIffInListedRows(s.cells, t, r);
    }
    forall r | r in ListedRows(s.cells, t) ensures ReadCell(n, t, r, col) == ReadCell(s.cells, t, r, col) {
      RowKeepsReading(s.cells, n, t, col, d, s.clock, r);
    }
  }

  lemma ListedIffInListedRows(m: CellMap, t: string, r: string)
    ensures r in ListedRows(m, t) <==> Listed(m, t, r)
  {
    if Listed(m, t, r) {
      var id :| id in m && id.table == t && id.row == r;
      assert Listed(m, t, id.row);
    }
  }

  // ---- rows added later ----

  ghost predicate NamesDiffer(fields: seq<(string, Option<Value>)>) {
    forall i, j :: 0 <= i < j < |fields| ==> fields[i].0 != fields[j].0
  }

  /** Patching writes each present field's cell, and no other cell of the row. */
  lemma {:induction false} PatchedAt(m: CellMap, row: string, fields: seq<(string, Option<Value>)>, ts: Timestamp,
                                     k: nat)
    requires ts + |fields| <= U64_MAX && NamesDiffer(fields) && k < |fields|
    requires forall id :: id in m ==> m[id].ts < ts
    ensures var us, id := PatchUpdates(row, fields, ts), CellId(SCHEMA, row, fields[k].0);
      && (fields[k].1.Some? ==> exists u :: u in us && u.id == id && u.cell.value == fields[k].1.value)
      && (fields[k].1.None? ==> forall u :: u in us ==> u.id != id)
  {
    var us := PatchUpdates(row, fields, ts);
    var next := if fields[0].1.Some? then ts + 1 else ts;
    var rest := PatchUpdates(row, fields[1..], next);
    if k > 0 {
      PatchedAt(map[], row, fields[1..], next, k - 1);
      assert fields[1..][k - 1] == fields[k];
      assert fields[0].0 != fields[k].0;
      if fields[k].1.Some? {
        var u :| u in rest && u.id == CellId(SCHEMA, row, fields[k].0) && u.cell.value == fields[k].1.value;
        assert u in us;
      }
    } else {
      PatchCellsAreNamed(row, fields[1..], next);
      if fields[0].1.Some? { assert us[0] in us; }
    }
  }

  lemma {:induction false} PatchDistinct(row: string, fields: seq<(string, Option<Value>)>, ts: Timestamp)
    requires ts + |fields| <= U64_MAX && NamesDiffer(fields)
    ensures DistinctIds(PatchUpdates(row, fields, ts))
  {
    if fields != [] {
      var next := if fields[0].1.Some? then ts + 1 else ts;
      var us, rest := PatchUpdates(row, fields, ts), PatchUpdates(row, fields[1..], next);
      PatchDistinct(row, fields[1..], next);
      PatchCellsAreNamed(row, fields[1..], next);
      if us != rest {
        forall j | 0 <= j < |rest| ensures rest[j].id != us[0].id { assert rest[j] in rest; }
      }
    }
  }

  /** The value of one schema cell of the patched column afterwards. */
  lemma PatchedValue(m: CellMap, t: string, col: string, p: Patch, ts: Timestamp, k: nat)
    requires 0 < ts && ts + COLUMN_SPAN <= U64_MAX && k < 8
    requires forall id :: id in m ==> m[id].ts < ts
    ensures var n, id := PutAll(m, UpdateColumnUpdates(t, col, p, ts)),
      CellId(SCHEMA, ColumnRow(t, col), PatchFields(p)[k].0);
      && (PatchFields(p)[k].1.Some? ==> id in n && n[id].value == PatchFields(p)[k].1.value)
      && (PatchFields(p)[k].1.None? ==> (id in n <==> id in m) && (id in m ==> n[id] == m[id]))
  {
    var row, fields := ColumnRow(t, col), PatchFields(p);
    var us := UpdateColumnUpdates(t, col, p, ts);
    var id := CellId(SCHEMA, row, fields[k].0);
    PatchedAt(m, row, fields, ts, k);
    if fields[k].1.Some? {
      PatchDistinct(row, fields, ts);
      FreshReplacesAt(m, us, ts - 1, id);
    } else {
      PutAllElsewhere(m, us, id);
    }
  }

  /** The column stays a live select column: its type and name are not patched away. */
  predicate KeepsSelect(p: Patch) {
    (p.kind == None || p.kind == Some(Str("select"))) && (p.name.None? || p.name.value.Str?)
  }

  lemma PatchLeavesOtherCells(m: CellMap, t: string, col: string, p: Patch, ts: Timestamp, id: CellId)
    requires ts + COLUMN_SPAN <= U64_MAX
    requires MarksCutoff(id) || KindOf(id.table) != SchemaTable || id.col == "deleted"
    ensures var n := PutAll(m, UpdateColumnUpdates(t, col, p, ts));
      (id in n <==> id in m) && (id in m ==> n[id] == m[id])
  {
    PatchMarksNothing(t, col, p, ts);
    PatchCellsAreNamed(ColumnRow(t, col), PatchFields(p), ts);
    PutAllElsewhere(m, UpdateColumnUpdates(t, col, p, ts), id);
  }

  lemma OneLiveRow(v: Values, t: string, col: string, row: string)
    requires ColumnRows(v, t, col) == {row}
    ensures SelectDefault(v, t, col).Some? <==> HasSelectDefault(v, t, row)
    ensures SelectDefault(v, t, col).Some? ==> SelectDefault(v, t, col) == Some(v[CellId(SCHEMA, row, "default")])
  {
    var live := set r | r in ColumnRows(v, t, col) && ParsesAsColumn(v, r)
      && !Is(v, CellId(SCHEMA, r, "deleted"), Bool(true));
    assert live <= {row};
    if ParsesAsColumn(v, row) && !Is(v, CellId(SCHEMA, row, "deleted"), Bool(true)) {
      assert live == {row};
    } else {
      assert live == {};
    }
  }

  predicate HasSelectDefault(v: Values, t: string, row: string) {
    && !TableDeleted(v, t) && CellId(TABLES, t, "name") in v
    && ParsesAsColumn(v, row) && !Is(v, CellId(SCHEMA, row, "deleted"), Bool(true))
    && Is(v, CellId(SCHEMA, row, "type"), Str("select"))
    && CellId(SCHEMA, row, "default") in v && !ValueIsEmpty(v[CellId(SCHEMA, row, "default")])
  }

  /** Afterwards a row without a value of its own reads the new default, or nothing if the
      new default is blank. */
  lemma LaterRowsReadTheNewDefault(m: CellMap, t: string, col: string, p: Patch, ts: Timestamp)
    requires KindOf(t) == DataTable && 0 < ts && ts + COLUMN_SPAN <= U64_MAX
    requires forall id :: id in m ==> m[id].ts < ts
    requires ColumnRows(ValuesOf(m), t, col) == {ColumnRow(t, col)}
    requires SelectDefault(ValuesOf(m), t, col).Some? && p.default.Some? && KeepsSelect(p)
    ensures var v := ValuesOf(PutAll(m, UpdateColumnUpdates(t, col, p, ts)));
      && SelectDefault(v, t, col) == (if ValueIsEmpty(p.default.value) then None else p.default)
      && ReadWithDefault(map[], SelectDefault(v, t, col), col) == SelectDefault(v, t, col)
  {
    var row := ColumnRow(t, col);
    var n := PutAll(m, UpdateColumnUpdates(t, col, p, ts));
    var v, w := ValuesOf(m), ValuesOf(n);
    forall id | MarksCutoff(id) ensures (id in v <==> id in w) && (id in v ==> v[id] == w[id]) {
      PatchLeavesOtherCells(m, t, col, p, ts, id);
    }
    ColumnRowsFromMarks(v, w, t, col);
    OneLiveRow(v, t, col, row);
    OneLiveRow(w, t, col, row);
    PatchedColumnReads(m, t, col, p, ts);
  }

  lemma PatchedColumnReads(m: CellMap, t: string, col: string, p: Patch, ts: Timestamp)
    requires KindOf(t) == DataTable && 0 < ts && ts + COLUMN_SPAN <= U64_MAX
    requires forall id :: id in m ==> m[id].ts < ts
    requires HasSelectDefault(ValuesOf(m), t, ColumnRow(t, col)) && p.default.Some? && KeepsSelect(p)
    ensures var w, row := ValuesOf(PutAll(m, UpdateColumnUpdates(t, col, p, ts))), ColumnRow(t, col);
      && CellId(SCHEMA, row, "default") in w && w[CellId(SCHEMA, row, "default")] == p.default.value
      && (HasSelectDefault(w, t, row) <==> !ValueIsEmpty(p.default.value))
  {
    var row := ColumnRow(t, col);
    PatchLeavesOtherCells(m, t, col, p, ts, CellId(TABLES, t, "deleted"));
    PatchLeavesOtherCells(m, t, col, p, ts, CellId(TABLES, t, "name"));
    PatchLeavesOtherCells(m, t, col, p, ts, CellId(SCHEMA, row, "deleted"));
    assert PatchFields(p)[0] == ("name", p.name) && PatchFields(p)[1] == ("type", p.kind)
      && PatchFields(p)[3] == ("default", p.default);
    PatchedValue(m, t, col, p, ts, 0);
    PatchedValue(m, t, col, p, ts, 1);
    PatchedValue(m, t, col, p, ts, 3);
  }
}
