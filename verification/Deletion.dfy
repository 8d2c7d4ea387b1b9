/** Deletion as decay: a deleted column or table that is made again starts blank. */
module Deletion {
  import opened Cells
  import opened Reads
  import opened States
  import opened Schema
  import opened Defaults

  ghost predicate FieldNamesDiffer(fields: seq<Field>) {
    forall i, j :: 0 <= i < j < |fields| ==> fields[i].cell != fields[j].cell
  }

  ghost predicate GoodFields(fields: seq<Field>, ts: Timestamp) {
    ts + COLUMN_SPAN <= U64_MAX && forall f :: f in fields ==> f.offset < COLUMN_SPAN
  }

  lemma {:induction false} FieldsWritten(row: string, fields: seq<Field>, ts: Timestamp, u: Update) returns (k: nat)
    requires GoodFields(fields, ts) && u in FieldUpdates(row, fields, ts)
    ensures k < |fields| && u.id == CellId(SCHEMA, row, fields[k].cell) && fields[k].value == Some(u.cell.value)
    decreases |fields|
  {
    if u in FieldUpdates(row, fields[1..], ts) {
      var j := FieldsWritten(row, fields[1..], ts, u);
      k := j + 1;
    } else {
      k := 0;
    }
  }

  lemma {:induction false} FieldIsWritten(row: string, fields: seq<Field>, ts: Timestamp, k: nat)
    requires GoodFields(fields, ts) && k < |fields| && fields[k].value.Some?
    ensures exists u :: u in FieldUpdates(row, fields, ts) && u.id == CellId(SCHEMA, row, fields[k].cell)
    decreases |fields|
  {
    if k > 0 {
      FieldIsWritten(row, fields[1..], ts, k - 1);
      var u :| u in FieldUpdates(row, fields[1..], ts) && u.id == CellId(SCHEMA, row, fields[1..][k - 1].cell);
      assert u in FieldUpdates(row, fields, ts);
    } else {
      assert FieldUpdates(row, fields, ts)[0].id == CellId(SCHEMA, row, fields[0].cell);
    }
  }

  /** After the fields of a row are written under fresh stamps, a written cell holds its
      field's value and any other cell is as it was. */
  lemma FieldHolds(m: CellMap, row: string, fields: seq<Field>, ts: Timestamp, k: nat)
    requires GoodFields(fields, ts) && FieldNamesDiffer(fields) && k < |fields| && fields[k].value.Some?
    requires forall id :: id in m ==> m[id].ts < ts
    ensures var id, n := CellId(SCHEMA, row, fields[k].cell), PutAll(m, FieldUpdates(row, fields, ts));
      id in n && n[id].value == fields[k].value.value
  {
    var id, us := CellId(SCHEMA, row, fields[k].cell), FieldUpdates(row, fields, ts);
    PutAllKeepsWinner(m, us, id);
    FieldIsWritten(row, fields, ts, k);
    var u :| u in us && u.id == id;
    assert u == Update(id, u.cell) && Offered(m, us, id, u.cell);
    var won := PutAll(m, us)[id];
    WinsOverIsRankOrder(won, u.cell);
    assert Update(id, won) in us;
    var j := FieldsWritten(row, fields, ts, Update(id, won));
    assert j == k;
  }

  lemma FieldAbsent(m: CellMap, row: string, fields: seq<Field>, ts: Timestamp, id: CellId)
    requires GoodFields(fields, ts)
    requires forall k :: 0 <= k < |fields| ==> id != CellId(SCHEMA, row, fields[k].cell)
    ensures var n := PutAll(m, FieldUpdates(row, fields, ts)); (id in n <==> id in m) && (id in m ==> n[id] == m[id])
  {
    forall u | u in FieldUpdates(row, fields, ts) ensures u.id != id {
      var k := FieldsWritten(row, fields, ts, u);
    }
    PutAllElsewhere(m, FieldUpdates(row, fields, ts), id);
  }

  // ---- columns ----

  /** The column has its one schema row, deleted at `at`. */
  ghost predicate DeletedColumn(v: Values, t: string, col: string, at: Timestamp) {
    ColumnRows(v, t, col) == {ColumnRow(t, col)} && DeletedAt(v, ColumnRow(t, col)) == Some(at)
  }

  lemma DeletedColumnCutoff(v: Values, t: string, col: string, at: Timestamp)
    requires DeletedColumn(v, t, col, at)
    ensures ColumnCutoff(v, t, col) == Some(at)
  {
    var row := ColumnRow(t, col);
    assert (set r | r in ColumnRows(v, t, col) && DeletedAt(v, r).Some?) == {row};
  }

  lemma DeleteMarks(m: CellMap, t: string, col: string, ts: Timestamp)
    requires 0 < ts && ColumnRows(ValuesOf(m), t, col) == {ColumnRow(t, col)}
    requires forall id :: id in m ==> m[id].ts < ts
    ensures DeletedColumn(ValuesOf(PutAll(m, DeleteColumnUpdates(t, col, ts))), t, col, ts)
  {
    var us, row := DeleteColumnUpdates(t, col, ts), ColumnRow(t, col);
    var n := PutAll(m, us);
    var mark := CellId(SCHEMA, row, "deleted_at");
    FreshReplacesAt(m, us, ts - 1, mark);
    assert us[1] in us && us[1].id == mark;
    forall r, c | c == "table_id" || c == "column_id"
      ensures CellId(SCHEMA, r, c) in n <==> CellId(SCHEMA, r, c) in m
      ensures CellId(SCHEMA, r, c) in m ==> n[CellId(SCHEMA, r, c)] == m[CellId(SCHEMA, r, c)]
    {
      PutAllElsewhere(m, us, CellId(SCHEMA, r, c));
    }
    SameColumnRows(ValuesOf(m), ValuesOf(n), t, col);
  }

  ghost predicate AgreeOn(v: Values, w: Values, id: CellId) {
    (id in v <==> id in w) && (id in v ==> v[id] == w[id])
  }

  lemma SameColumnRows(v: Values, w: Values, t: string, col: string)
    requires forall r :: AgreeOn(v, w, CellId(SCHEMA, r, "table_id")) && AgreeOn(v, w, CellId(SCHEMA, r, "column_id"))
    ensures ColumnRows(v, t, col) == ColumnRows(w, t, col)
  {
    forall r ensures r in ColumnRows(v, t, col) <==> r in ColumnRows(w, t, col) {
      InColumnRows(v, t, col, r);
      InColumnRows(w, t, col, r);
      assert AgreeOn(v, w, CellId(SCHEMA, r, "table_id")) && AgreeOn(v, w, CellId(SCHEMA, r, "column_id"));
    }
  }

  lemma InColumnRows(v: Values, t: string, col: string, r: string)
    ensures r in ColumnRows(v, t, col) <==>
      Is(v, CellId(SCHEMA, r, "column_id"), Str(col)) && Is(v, CellId(SCHEMA, r, "table_id"), Str(t))
  {
  }

  /** Adding a deleted column again keeps the mark of when it was deleted. */
  lemma AddingKeepsTheMark(m: CellMap, t: string, c: Column, order: int, at: Timestamp, ts: Timestamp)
    requires DeletedColumn(ValuesOf(m), t, c.id, at) && ts + COLUMN_SPAN <= U64_MAX
    requires forall id :: id in m ==> m[id].ts < ts
    ensures DeletedColumn(ValuesOf(PutAll(m, AddColumnUpdates(t, c, order, ts))), t, c.id, at)
  {
    hide PutAll, FieldUpdates, ColumnRow, ColumnRows;
    var row, fields := ColumnRow(t, c.id), AddFields(t, c, order);
    var n := PutAll(m, FieldUpdates(row, fields, ts));
    FieldHolds(m, row, fields, ts, 0);
    FieldHolds(m, row, fields, ts, 1);
    FieldAbsent(m, row, fields, ts, CellId(SCHEMA, row, "deleted_at"));
    InColumnRows(ValuesOf(m), t, c.id, row);
    assert row in ColumnRows(ValuesOf(m), t, c.id);
    forall r
      ensures AgreeOn(ValuesOf(m), ValuesOf(n), CellId(SCHEMA, r, "table_id"))
        && AgreeOn(ValuesOf(m), ValuesOf(n), CellId(SCHEMA, r, "column_id"))
    {
      if r != row {
        FieldAbsent(m, row, fields, ts, CellId(SCHEMA, r, "table_id"));
        FieldAbsent(m, row, fields, ts, CellId(SCHEMA, r, "column_id"));
      }
    }
    SameColumnRows(ValuesOf(m), ValuesOf(n), t, c.id);
  }

  lemma HiddenAtOrBefore(n: CellMap, t: string, col: string, at: Timestamp, r: string)
    requires DeletedColumn(ValuesOf(n), t, col, at)
    requires CellId(t, r, col) in n ==> n[CellId(t, r, col)].ts <= at
    ensures col !in RowValues(n, t, r)
  {
    DeletedColumnCutoff(ValuesOf(n), t, col, at);
    OwnIsRowValue(n, t, r, col);
  }

  /** A column deleted and added again starts blank: no row shows a value from before. */
  lemma ReaddedColumnStartsBlank(m: CellMap, t: string, c: Column, order: int, ts: Timestamp, ts2: Timestamp, r: string)
    requires KindOf(t) == DataTable && 0 < ts < ts2 && ts2 + COLUMN_SPAN <= U64_MAX
    requires ColumnRows(ValuesOf(m), t, c.id) == {ColumnRow(t, c.id)}
    requires forall id :: id in m ==> m[id].ts < ts
    ensures var n := PutAll(PutAll(m, DeleteColumnUpdates(t, c.id, ts)), AddColumnUpdates(t, c, order, ts2));
      c.id !in RowValues(n, t, r) && ColumnCutoff(ValuesOf(n), t, c.id) == Some(ts)
  {
    var del, add := DeleteColumnUpdates(t, c.id, ts), AddColumnUpdates(t, c, order, ts2);
    var mid := PutAll(m, del);
    var id := CellId(t, r, c.id);
    DeleteMarks(m, t, c.id, ts);
    forall k | k in mid ensures mid[k].ts < ts2 { PutAllKeepsWinner(m, del, k); }
    AddingKeepsTheMark(mid, t, c, order, ts, ts2);
    PutAllElsewhere(m, del, id);
    PutAllElsewhere(mid, add, id);
    HiddenAtOrBefore(PutAll(mid, add), t, c.id, ts, r);
    DeletedColumnCutoff(ValuesOf(PutAll(mid, add)), t, c.id, ts);
  }

  // ---- tables ----

  lemma FloorHidesRows(n: CellMap, t: string, floor: Timestamp, r: string)
    requires TableFloor(ValuesOf(n), t) == Some(floor) && floor > 0
    requires forall id :: id in n && id.table == t ==> n[id].ts <= floor
    ensures !Listed(n, t, r)
  {
  }

  lemma TableUpdatesMarkNothing(def: Table, ts: Timestamp)
    requires ts + 2 + COLUMN_SPAN * |def.columns| <= U64_MAX && KindOf(def.id) == DataTable
    ensures forall u :: u in CreateTableUpdates(def, ts) ==>
              u.id.table != def.id && u.id != CellId(TABLES, def.id, "deleted_at")
  {
    CreateTableFansOut(def, ts);
    NewColumnsFanOut(def.id, def.columns, ts + 2);
    NewColumnsAreSchema(def.id, def.columns, ts + 2);
  }

  lemma {:induction false} NewColumnsAreSchema(t: string, cs: seq<Column>, ts: Timestamp)
    requires ts + COLUMN_SPAN * |cs| <= U64_MAX
    ensures forall u :: u in NewColumns(t, cs, ts) ==> u.id.table == SCHEMA
  {
    if cs != [] { NewColumnsAreSchema(t, cs[..|cs| - 1], ts); }
  }

  /** A table deleted and created again lists no row from before, even on a device that still
      holds the old cells: it shows what the device that dropped them shows. */
  lemma RecreatedTableStartsBlank(m: CellMap, def: Table, ts: Timestamp, ts2: Timestamp, r: string)
    requires KindOf(def.id) == DataTable && 0 < ts < ts2 && ts2 + 2 + COLUMN_SPAN * |def.columns| <= U64_MAX
    requires forall id :: id in m ==> m[id].ts < ts
    ensures var n := PutAll(PutAll(m, DeleteTableUpdates(def.id, ts)), CreateTableUpdates(def, ts2));
      !Listed(n, def.id, r)
  {
    var t, del, add := def.id, DeleteTableUpdates(def.id, ts), CreateTableUpdates(def, ts2);
    var mid := PutAll(m, del);
    var n := PutAll(mid, add);
    var mark := CellId(TABLES, t, "deleted_at");
    FreshReplacesAt(m, del, ts - 1, mark);
    assert del[1] in del && del[1].id == mark;
    TableUpdatesMarkNothing(def, ts2);
    PutAllElsewhere(mid, add, mark);
    forall id | id in n && id.table == t ensures n[id].ts <= ts {
      PutAllElsewhere(mid, add, id);
      PutAllElsewhere(m, del, id);
    }
    FloorHidesRows(n, t, ts, r);
  }
}
