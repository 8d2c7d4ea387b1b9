/** What tables and columns read after each schema operation, cell by cell. */
module Declared {
  import opened Cells
  import opened Reads
  import opened States
  import opened Schema
  import opened Defaults
  import opened Deletion
  import opened Operations

  /** The cell reads `v` now; without a `v` it is as it was. */
  ghost predicate NowReads(m: CellMap, n: CellMap, id: CellId, v: Option<Value>) {
    if v.Some? then id in n && n[id].value == v.value else (id in n <==> id in m) && (id in m ==> n[id] == m[id])
  }

  lemma {:induction false} FieldIn(row: string, fields: seq<Field>, ts: Timestamp, k: nat)
    requires GoodFields(fields, ts) && k < |fields| && fields[k].value.Some?
    ensures LocalUpdate(CellId(SCHEMA, row, fields[k].cell), fields[k].value.value, ts + fields[k].offset)
      in FieldUpdates(row, fields, ts)
    decreases |fields|
  {
    if k > 0 {
      FieldIn(row, fields[1..], ts, k - 1);
    } else {
      assert FieldUpdates(row, fields, ts)[0].id == CellId(SCHEMA, row, fields[0].cell);
    }
  }

  /** Among the updates `us` those of one schema row are its fields. */
  ghost predicate WritesRow(us: seq<Update>, row: string, fields: seq<Field>, ts: Timestamp)
    requires GoodFields(fields, ts)
  {
    && (forall u :: u in FieldUpdates(row, fields, ts) ==> u in us)
    && (forall u :: u in us && u.id.table == SCHEMA && u.id.row == row ==> u in FieldUpdates(row, fields, ts))
  }

  ghost predicate Fresh(m: CellMap, us: seq<Update>, ts: Timestamp) {
    (forall id :: id in m ==> m[id].ts < ts) && forall u :: u in us ==> ts <= u.cell.ts
  }

  lemma FieldReads(m: CellMap, us: seq<Update>, row: string, fields: seq<Field>, ts: Timestamp, low: Timestamp, k: nat)
    requires GoodFields(fields, ts) && FieldNamesDiffer(fields) && k < |fields|
    requires WritesRow(us, row, fields, ts) && DistinctIds(us) && Fresh(m, us, low)
    ensures NowReads(m, PutAll(m, us), CellId(SCHEMA, row, fields[k].cell), fields[k].value)
  {
    hide PutAll, FieldUpdates, GoodFields;
    var id := CellId(SCHEMA, row, fields[k].cell);
    if fields[k].value.Some? {
      FieldIn(row, fields, ts, k);
      var u := LocalUpdate(id, fields[k].value.value, ts + fields[k].offset);
      FreshIsHeld(m, us, u);
    } else {
      forall u | u in us ensures u.id != id {
        if u.id == id { var j := FieldsWritten(row, fields, ts, u); }
      }
      PutAllElsewhere(m, us, id);
    }
  }

  /** What nobody writes stays. */
  lemma Unwritten(m: CellMap, us: seq<Update>, id: CellId)
    requires forall u :: u in us ==> u.id != id
    ensures NowReads(m, PutAll(m, us), id, None)
  {
    PutAllElsewhere(m, us, id);
  }

  // ---- columns ----

  /** Adding a column. */
  lemma AddedColumnReads(m: CellMap, t: string, c: Column, order: int, ts: Timestamp)
    requires ts + COLUMN_SPAN <= U64_MAX && forall id :: id in m ==> m[id].ts < ts
    ensures var n, row := PutAll(m, AddColumnUpdates(t, c, order, ts)), t + "." + c.id;
      && NowReads(m, n, CellId("_schema", row, "table_id"), Some(Str(t)))
      && NowReads(m, n, CellId("_schema", row, "column_id"), Some(Str(c.id)))
      && NowReads(m, n, CellId("_schema", row, "name"), Some(Str(c.name)))
      && NowReads(m, n, CellId("_schema", row, "type"), Some(Str(c.kind)))
      && NowReads(m, n, CellId("_schema", row, "required"), Some(Bool(c.required)))
      && NowReads(m, n, CellId("_schema", row, "options"), c.options)
      && NowReads(m, n, CellId("_schema", row, "default"), c.default)
      && NowReads(m, n, CellId("_schema", row, "order"), Some(Num(order)))
      && NowReads(m, n, CellId("_schema", row, "deleted"), Some(Bool(false)))
  {
    hide PutAll, FieldUpdates, NowReads, WritesRow, Fresh;
    var us, fields := AddColumnUpdates(t, c, order, ts), AddFields(t, c, order);
    assert ColumnRow(t, c.id) == t + "." + c.id;
    AddedFieldNamesDiffer(t, c, order);
    FieldsAreDistinct(ColumnRow(t, c.id), fields, ts);
    OnlyItsFields(m, ColumnRow(t, c.id), fields, ts);
    FieldReads(m, us, ColumnRow(t, c.id), fields, ts, ts, 0);
    FieldReads(m, us, ColumnRow(t, c.id), fields, ts, ts, 1);
    FieldReads(m, us, ColumnRow(t, c.id), fields, ts, ts, 2);
    FieldReads(m, us, ColumnRow(t, c.id), fields, ts, ts, 3);
    FieldReads(m, us, ColumnRow(t, c.id), fields, ts, ts, 4);
    FieldReads(m, us, ColumnRow(t, c.id), fields, ts, ts, 5);
    FieldReads(m, us, ColumnRow(t, c.id), fields, ts, ts, 6);
    FieldReads(m, us, ColumnRow(t, c.id), fields, ts, ts, 7);
    FieldReads(m, us, ColumnRow(t, c.id), fields, ts, ts, 8);
  }

  /** Where a column goes that does not say: behind every other of the table, first in an empty
      one. */
  lemma AddedColumnComesLast(m: CellMap, t: string, col: string, order: int, row: string, n: int)
    requires IsNextOrder(OrdersOf(ValuesOf(m), t, t + "." + col), order)
    requires CellId("_schema", row, "order") in m && m[CellId("_schema", row, "order")].value == Num(n)
    requires -0x8000_0000_0000_0000 <= n <= 0x7FFF_FFFF_FFFF_FFFF
    requires row == t + "." + col ||
      (CellId("_schema", row, "table_id") in m && m[CellId("_schema", row, "table_id")].value == Str(t))
    ensures n < order
  {
    assert n in OrdersOf(ValuesOf(m), t, t + "." + col) by {
      var id := CellId(SCHEMA, row, "order");
      assert id in ValuesOf(m) && ValuesOf(m)[id].n == n;
    }
  }

  lemma FirstColumnComesFirst(m: CellMap, t: string, col: string, order: int)
    requires IsNextOrder(OrdersOf(ValuesOf(m), t, t + "." + col), order)
    ensures order == 0 || exists row ::
      && CellId("_schema", row, "order") in m && m[CellId("_schema", row, "order")].value == Num(order - 1)
      && (row == t + "." + col ||
          (CellId("_schema", row, "table_id") in m && m[CellId("_schema", row, "table_id")].value == Str(t)))
  {
  }

  lemma OnlyItsFields(m: CellMap, row: string, fields: seq<Field>, ts: Timestamp)
    requires GoodFields(fields, ts) && forall id :: id in m ==> m[id].ts < ts
    ensures WritesRow(FieldUpdates(row, fields, ts), row, fields, ts) && Fresh(m, FieldUpdates(row, fields, ts), ts)
  {
  }

  /** And nothing else: no other row, and of the column's row only those nine cells. */
  lemma AddedColumnLeaves(m: CellMap, t: string, c: Column, order: int, ts: Timestamp, id: CellId)
    requires ts + COLUMN_SPAN <= U64_MAX
    requires id.table == "_schema" && id.row == t + "." + c.id ==>
      id.col !in {"table_id", "column_id", "name", "type", "required", "options", "default", "order", "deleted"}
    ensures NowReads(m, PutAll(m, AddColumnUpdates(t, c, order, ts)), id, None)
  {
    hide PutAll, FieldUpdates;
    var us, fields := AddColumnUpdates(t, c, order, ts), AddFields(t, c, order);
    assert forall f :: f in fields ==>
      f.cell in {"table_id", "column_id", "name", "type", "required", "options", "default", "order", "deleted"};
    forall u | u in us ensures u.id != id {
      var k := FieldsWritten(ColumnRow(t, c.id), fields, ts, u);
      assert fields[k] in fields;
    }
    Unwritten(m, us, id);
  }

  // ---- tables ----

  lemma {:induction false} ColumnIn(t: string, cs: seq<Column>, ts: Timestamp, i: nat)
    requires ts + COLUMN_SPAN * |cs| <= U64_MAX && i < |cs|
    ensures forall u :: u in NewColumn(t, cs[i], i, ts + COLUMN_SPAN * i) ==> u in NewColumns(t, cs, ts)
  {
    if i < |cs| - 1 { ColumnIn(t, cs[..|cs| - 1], ts, i); }
  }

  lemma {:induction false} FromItsColumn(t: string, cs: seq<Column>, ts: Timestamp, u: Update) returns (i: nat)
    requires ts + COLUMN_SPAN * |cs| <= U64_MAX && u in NewColumns(t, cs, ts)
    ensures i < |cs| && u in NewColumn(t, cs[i], i, ts + COLUMN_SPAN * i)
    ensures u.id.table == SCHEMA && u.id.row == ColumnRow(t, cs[i].id)
  {
    hide FieldUpdates, NewFields, ColumnRow;
    var n := |cs| - 1;
    if u in NewColumn(t, cs[n], n, ts + COLUMN_SPAN * n) {
      i := n;
    } else {
      i := FromItsColumn(t, cs[..n], ts, u);
    }
  }

  lemma RegistryIsFirst(def: Table, ts: Timestamp, u: Update)
    requires ts + 2 + COLUMN_SPAN * |def.columns| <= U64_MAX && u in CreateTableUpdates(def, ts)
    ensures u.id.table == TABLES || u in NewColumns(def.id, def.columns, ts + 2)
    ensures u.id.table == TABLES ==> u.id.row == def.id && u.id.col in {"name", "deleted", "description"}
  {
    hide NewColumns, NewColumn, ColumnRow;
    if u in NewColumns(def.id, def.columns, ts + 2) {
      var i := FromItsColumn(def.id, def.columns, ts + 2, u);
    }
  }

  lemma NewTableWritesRow(def: Table, ts: Timestamp, i: nat)
    requires DistinctColumns(def.columns) && ts + 2 + COLUMN_SPAN * |def.columns| <= U64_MAX && i < |def.columns|
    ensures var c, at := def.columns[i], ts + 2 + COLUMN_SPAN * i;
      WritesRow(CreateTableUpdates(def, ts), ColumnRow(def.id, c.id), NewFields(def.id, c, i), at)
  {
    hide FieldUpdates, NewFields, ColumnRow;
    var us, c, at := CreateTableUpdates(def, ts), def.columns[i], ts + 2 + COLUMN_SPAN * i;
    ColumnIn(def.id, def.columns, ts + 2, i);
    SchemaIsNotTheRegistry();
    forall u | u in us && u.id.table == SCHEMA && u.id.row == ColumnRow(def.id, c.id)
      ensures u in FieldUpdates(ColumnRow(def.id, c.id), NewFields(def.id, c, i), at)
    {
      RegistryIsFirst(def, ts, u);
      var j := FromItsColumn(def.id, def.columns, ts + 2, u);
      SameColumnRow(def.id, def.columns[j].id, c.id);
    }
  }

  /** Creating a table, or making it again: each of its columns. */
  lemma NewTableColumnReads(m: CellMap, def: Table, ts: Timestamp, i: nat)
    requires DistinctColumns(def.columns) && ts + 2 + COLUMN_SPAN * |def.columns| <= U64_MAX && i < |def.columns|
    requires forall id :: id in m ==> m[id].ts < ts
    ensures var n, c := PutAll(m, CreateTableUpdates(def, ts)), def.columns[i];
      var row := def.id + "." + c.id;
      && NowReads(m, n, CellId("_schema", row, "table_id"), Some(Str(def.id)))
      && NowReads(m, n, CellId("_schema", row, "column_id"), Some(Str(c.id)))
      && NowReads(m, n, CellId("_schema", row, "name"), Some(Str(c.name)))
      && NowReads(m, n, CellId("_schema", row, "type"), Some(Str(c.kind)))
      && NowReads(m, n, CellId("_schema", row, "required"), Some(Bool(c.required)))
      && NowReads(m, n, CellId("_schema", row, "default"), c.default)
      && NowReads(m, n, CellId("_schema", row, "options"), c.options)
      && NowReads(m, n, CellId("_schema", row, "reference_table"), c.referenceTable)
      && NowReads(m, n, CellId("_schema", row, "reference_display_column"), c.referenceDisplay)
      && NowReads(m, n, CellId("_schema", row, "formula"), c.formula)
      && NowReads(m, n, CellId("_schema", row, "width"), c.width)
      && NowReads(m, n, CellId("_schema", row, "order"), Some(Num(if c.order.Some? then c.order.value else i)))
  {
    hide PutAll, FieldUpdates, NowReads, WritesRow, CreateTableUpdates;
    var us, c, at := CreateTableUpdates(def, ts), def.columns[i], ts + 2 + COLUMN_SPAN * i;
    var row, fields := ColumnRow(def.id, c.id), NewFields(def.id, c, i);
    assert row == def.id + "." + c.id;
    NewTableWritesRow(def, ts, i);
    CreateTableDescribes(def, ts);
    NewFieldNamesDiffer(def.id, c, i);
    FieldReads(m, us, row, fields, at, ts, 0);
    FieldReads(m, us, row, fields, at, ts, 1);
    FieldReads(m, us, row, fields, at, ts, 2);
    FieldReads(m, us, row, fields, at, ts, 3);
    FieldReads(m, us, row, fields, at, ts, 4);
    FieldReads(m, us, row, fields, at, ts, 5);
    FieldReads(m, us, row, fields, at, ts, 6);
    FieldReads(m, us, row, fields, at, ts, 7);
    FieldReads(m, us, row, fields, at, ts, 8);
    FieldReads(m, us, row, fields, at, ts, 9);
    FieldReads(m, us, row, fields, at, ts, 10);
    FieldReads(m, us, row, fields, at, ts, 11);
  }

  /** And its registry row. */
  lemma NewTableReads(m: CellMap, def: Table, ts: Timestamp)
    requires DistinctColumns(def.columns) && ts + 2 + COLUMN_SPAN * |def.columns| <= U64_MAX
    requires forall id :: id in m ==> m[id].ts < ts
    ensures var n := PutAll(m, CreateTableUpdates(def, ts));
      && NowReads(m, n, CellId("_tables", def.id, "name"), Some(Str(def.name)))
      && NowReads(m, n, CellId("_tables", def.id, "deleted"), Some(Bool(false)))
      && NowReads(m, n, CellId("_tables", def.id, "description"), def.description)
  {
    hide PutAll, NewColumns;
    var us := CreateTableUpdates(def, ts);
    CreateTableDescribes(def, ts);
    SchemaIsNotTheRegistry();
    FreshIsHeld(m, us, us[0]);
    FreshIsHeld(m, us, us[1]);
    if def.description.Some? {
      assert us[2].id == CellId(TABLES, def.id, "description");
      FreshIsHeld(m, us, us[2]);
    } else {
      forall u | u in us ensures u.id != CellId(TABLES, def.id, "description") {
        RegistryIsFirst(def, ts, u);
        if u in NewColumns(def.id, def.columns, ts + 2) {
          var i := FromItsColumn(def.id, def.columns, ts + 2, u);
        }
      }
      Unwritten(m, us, CellId(TABLES, def.id, "description"));
    }
  }

  /** And nothing else: no deletion mark, no other table's row, no row of another column, and no
      other cell of its columns' rows. */
  lemma NewTableLeaves(m: CellMap, def: Table, ts: Timestamp, id: CellId)
    requires ts + 2 + COLUMN_SPAN * |def.columns| <= U64_MAX
    requires id.table == "_tables" && id.row == def.id ==> id.col !in {"name", "deleted", "description"}
    requires id.table == "_schema" && (exists c :: c in def.columns && id.row == def.id + "." + c.id) ==>
      id.col !in {"table_id", "column_id", "name", "type", "required", "default", "options", "reference_table",
                  "reference_display_column", "formula", "width", "order"}
    ensures NowReads(m, PutAll(m, CreateTableUpdates(def, ts)), id, None)
  {
    hide PutAll, NewColumns, FieldUpdates, CreateTableUpdates;
    forall u | u in CreateTableUpdates(def, ts) ensures u.id != id {
      RegistryIsFirst(def, ts, u);
      if u in NewColumns(def.id, def.columns, ts + 2) {
        var i := FromItsColumn(def.id, def.columns, ts + 2, u);
        var fields := NewFields(def.id, def.columns[i], i);
        var k := FieldsWritten(u.id.row, fields, ts + 2 + COLUMN_SPAN * i, u);
        assert def.columns[i] in def.columns && u.id.row == def.id + "." + def.columns[i].id;
        NewFieldNames(def.id, def.columns[i], i, fields[k]);
      }
    }
    Unwritten(m, CreateTableUpdates(def, ts), id);
  }

  lemma NewFieldNames(t: string, c: Column, idx: nat, f: Field)
    requires f in NewFields(t, c, idx)
    ensures f.cell in {"table_id", "column_id", "name", "type", "required", "default", "options", "reference_table",
                       "reference_display_column", "formula", "width", "order"}
  {
  }

  // ---- changing and deleting ----

  /** A patch writes the fields it has and leaves the others alone. */
  lemma PatchedColumnReads(m: CellMap, t: string, col: string, p: Patch, ts: Timestamp)
    requires ts + COLUMN_SPAN <= U64_MAX && forall id :: id in m ==> m[id].ts < ts
    ensures var n, row := PutAll(m, UpdateColumnUpdates(t, col, p, ts)), t + "." + col;
      && NowReads(m, n, CellId("_schema", row, "name"), p.name)
      && NowReads(m, n, CellId("_schema", row, "type"), p.kind)
      && NowReads(m, n, CellId("_schema", row, "options"), p.options)
      && NowReads(m, n, CellId("_schema", row, "default"), p.default)
      && NowReads(m, n, CellId("_schema", row, "reference_table"), p.referenceTable)
      && NowReads(m, n, CellId("_schema", row, "reference_display_column"), p.referenceDisplay)
      && NowReads(m, n, CellId("_schema", row, "formula"), p.formula)
      && NowReads(m, n, CellId("_schema", row, "width"), p.width)
  {
    hide PutAll, PatchUpdates, NowReads;
    assert ColumnRow(t, col) == t + "." + col;
    PatchReads(m, ColumnRow(t, col), PatchFields(p), ts, 0);
    PatchReads(m, ColumnRow(t, col), PatchFields(p), ts, 1);
    PatchReads(m, ColumnRow(t, col), PatchFields(p), ts, 2);
    PatchReads(m, ColumnRow(t, col), PatchFields(p), ts, 3);
    PatchReads(m, ColumnRow(t, col), PatchFields(p), ts, 4);
    PatchReads(m, ColumnRow(t, col), PatchFields(p), ts, 5);
    PatchReads(m, ColumnRow(t, col), PatchFields(p), ts, 6);
    PatchReads(m, ColumnRow(t, col), PatchFields(p), ts, 7);
  }

  lemma PatchReads(m: CellMap, row: string, fields: seq<(string, Option<Value>)>, ts: Timestamp, k: nat)
    requires ts + |fields| <= U64_MAX && NamesDiffer(fields) && k < |fields|
    requires forall id :: id in m ==> m[id].ts < ts
    ensures NowReads(m, PutAll(m, PatchUpdates(row, fields, ts)), CellId(SCHEMA, row, fields[k].0), fields[k].1)
  {
    hide PutAll;
    var us, id := PatchUpdates(row, fields, ts), CellId(SCHEMA, row, fields[k].0);
    PatchedAt(m, row, fields, ts, k);
    if fields[k].1.Some? {
      var u :| u in us && u.id == id && u.cell.value == fields[k].1.value;
      OnePerField(row, fields, ts);
      FreshIsHeld(m, us, u);
    } else {
      Unwritten(m, us, id);
    }
  }

  lemma {:induction false} OnePerField(row: string, fields: seq<(string, Option<Value>)>, ts: Timestamp)
    requires ts + |fields| <= U64_MAX && NamesDiffer(fields)
    ensures forall u, v :: u in PatchUpdates(row, fields, ts) && v in PatchUpdates(row, fields, ts) && u.id == v.id ==>
      u == v
    ensures forall u :: u in PatchUpdates(row, fields, ts) ==>
      exists k :: 0 <= k < |fields| && u.id == CellId(SCHEMA, row, fields[k].0)
  {
    if fields != [] {
      var next := if fields[0].1.Some? then ts + 1 else ts;
      OnePerField(row, fields[1..], next);
      var rest := PatchUpdates(row, fields[1..], next);
      forall u | u in rest ensures exists k :: 0 < k < |fields| && u.id == CellId(SCHEMA, row, fields[k].0) {
        var k :| 0 <= k < |fields[1..]| && u.id == CellId(SCHEMA, row, fields[1..][k].0);
        assert fields[k + 1] == fields[1..][k];
      }
    }
  }

  lemma PatchedColumnLeaves(m: CellMap, t: string, col: string, p: Patch, ts: Timestamp, id: CellId)
    requires ts + COLUMN_SPAN <= U64_MAX
    requires id.table == "_schema" && id.row == t + "." + col ==>
      id.col !in {"name", "type", "options", "default", "reference_table", "reference_display_column", "formula",
                  "width"}
    ensures NowReads(m, PutAll(m, UpdateColumnUpdates(t, col, p, ts)), id, None)
  {
    hide PutAll, PatchUpdates;
    var us, fields := UpdateColumnUpdates(t, col, p, ts), PatchFields(p);
    assert NamesDiffer(fields);
    OnePerField(ColumnRow(t, col), fields, ts);
    Unwritten(m, us, id);
  }

  /** Deleting a column: marked, with the moment of its deletion. */
  lemma DeletedColumnReads(m: CellMap, t: string, col: string, ts: Timestamp, id: CellId)
    requires forall k :: k in m ==> m[k].ts < ts
    ensures NowReads(m, PutAll(m, DeleteColumnUpdates(t, col, ts)), id,
      if id == CellId("_schema", t + "." + col, "deleted") then Some(Bool(true))
      else if id == CellId("_schema", t + "." + col, "deleted_at") then Some(Num(ts)) else None)
  {
    MarksRead(m, DeleteColumnUpdates(t, col, ts), "_schema", t + "." + col, ts, id);
  }

  /** Deleting a table likewise. */
  lemma DeletedTableReads(m: CellMap, t: string, ts: Timestamp, id: CellId)
    requires forall k :: k in m ==> m[k].ts < ts
    ensures NowReads(m, PutAll(m, DeleteTableUpdates(t, ts)), id,
      if id == CellId("_tables", t, "deleted") then Some(Bool(true))
      else if id == CellId("_tables", t, "deleted_at") then Some(Num(ts)) else None)
  {
    MarksRead(m, DeleteTableUpdates(t, ts), "_tables", t, ts, id);
  }

  lemma MarksRead(m: CellMap, us: seq<Update>, table: string, row: string, ts: Timestamp, id: CellId)
    requires us == [LocalUpdate(CellId(table, row, "deleted"), Bool(true), ts),
                    LocalUpdate(CellId(table, row, "deleted_at"), Num(ts), ts)]
    requires forall k :: k in m ==> m[k].ts < ts
    ensures NowReads(m, PutAll(m, us), id,
      if id == CellId(table, row, "deleted") then Some(Bool(true))
      else if id == CellId(table, row, "deleted_at") then Some(Num(ts)) else None)
  {
    hide PutAll;
    if id == us[0].id {
      FreshIsHeld(m, us, us[0]);
    } else if id == us[1].id {
      FreshIsHeld(m, us, us[1]);
    } else {
      Unwritten(m, us, id);
    }
  }

  /** Reordering: each column listed gets its place in the list. */
  lemma ReorderedReads(m: CellMap, t: string, cols: seq<string>, ts: Timestamp, i: nat)
    requires ts + |cols| <= U64_MAX && i < |cols| && forall k :: k in m ==> m[k].ts < ts
    requires forall j, k :: 0 <= j < k < |cols| ==> cols[j] != cols[k]
    ensures var n := PutAll(m, ReorderUpdates(t, cols, ts));
      NowReads(m, n, CellId("_schema", t + "." + cols[i], "order"), Some(Num(i)))
  {
    hide PutAll, ReorderUpdates;
    ReorderFansOut(t, cols, ts);
    var us := ReorderUpdates(t, cols, ts);
    forall u | u in us && u.id == us[i].id ensures u == us[i] {
      var j :| 0 <= j < |us| && us[j] == u;
      SameColumnRow(t, cols[j], cols[i]);
    }
    assert ColumnRow(t, cols[i]) == t + "." + cols[i];
    FreshIsHeld(m, us, us[i]);
  }
}
