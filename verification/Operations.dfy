/** Which local operations are steps of a run: they bring no deleted data back. */
module Operations {
  import opened Cells
  import opened Order
  import opened Reads
  import opened States
  import opened Schema
  import opened Deletion
  import opened Compaction
  import opened Timeline

  /** Distinct well-formed updates stamped past the clock. */
  ghost predicate IsFresh(s: State, us: seq<Update>, clock: Timestamp) {
    s.clock <= clock && DistinctIds(us) && forall u :: u in us ==> WellFormed(u) && s.clock < u.cell.ts <= clock
  }

  /** What was hidden and is not written stays hidden. */
  ghost predicate HidesNoLess(m: CellMap, n: CellMap, us: seq<Update>) {
    forall id :: id in m && !IsSystem(id.table) && !Emits(us, id) ==>
      && (RowDeleted(ValuesOf(m), id.table, id.row) ==> RowDeleted(ValuesOf(n), id.table, id.row))
      && (Stale(ValuesOf(m), id, m[id].ts) ==> Stale(ValuesOf(n), id, m[id].ts))
  }

  lemma FreshHolds(s: State, us: seq<Update>, clock: Timestamp, id: CellId)
    requires Consistent(s) && IsFresh(s, us, clock)
    ensures var n := PutAll(s.cells, us);
      && (forall u :: u in us && u.id == id ==> id in n && n[id] == u.cell)
      && (!Emits(us, id) ==> (id in n <==> id in s.cells) && (id in n ==> n[id] == s.cells[id]))
  {
    FreshBatchReplaces(s.cells, us, s.clock);
  }

  lemma PlainIsLegal(s: State, us: seq<Update>, clock: Timestamp, size: Size)
    requires Consistent(s) && IsFresh(s, us, clock) && HidesNoLess(s.cells, PutAll(s.cells, us), us)
    ensures LegalStep(s, Plain(us, clock), size)
  {
    var m, n := s.cells, PutAll(s.cells, us);
    ApplyAllFacts(s.(clock := clock), us);
    forall id | Bumpable(n, id) && !Emits(us, id) ensures Bumpable(m, id) {
      FreshHolds(s, us, clock, id);
    }
  }

  // ---- writing and deleting rows ----

  /** The update is no mark a cutoff is read from, and takes no tombstone off. */
  predicate MarksNothing(u: Update) {
    !MarksCutoff(u.id) && (u.id.col == ROW_DELETED ==> u.cell.value == Bool(true))
  }

  lemma UnmarkedStays(s: State, us: seq<Update>, clock: Timestamp, id: CellId)
    requires Consistent(s) && IsFresh(s, us, clock) && forall u :: u in us ==> MarksNothing(u)
    ensures var v, w := ValuesOf(s.cells), ValuesOf(PutAll(s.cells, us));
      && (MarksCutoff(id) ==> AgreeOn(v, w, id))
      && (id.col == ROW_DELETED && Is(v, id, Bool(true)) ==> Is(w, id, Bool(true)))
  {
    FreshHolds(s, us, clock, id);
    if u :| u in us && u.id == id { assert MarksNothing(u); }
  }

  /** Writing and importing data, deleting rows, and changing schema cells that mark nothing:
      patches, reorders, renames. */
  lemma UnmarkedIsLegal(s: State, us: seq<Update>, clock: Timestamp, size: Size)
    requires Consistent(s) && IsFresh(s, us, clock) && forall u :: u in us ==> MarksNothing(u)
    ensures LegalStep(s, Plain(us, clock), size)
  {
    hide PutAll, LegalStep, Consistent, MarksCutoff, Stale;
    var m, n := s.cells, PutAll(s.cells, us);
    var v, w := ValuesOf(m), ValuesOf(n);
    forall id ensures MarksCutoff(id) ==> AgreeOn(v, w, id)
      ensures id.col == ROW_DELETED && Is(v, id, Bool(true)) ==> Is(w, id, Bool(true))
    {
      UnmarkedStays(s, us, clock, id);
    }
    forall id | id in m ensures Stale(v, id, m[id].ts) ==> Stale(w, id, m[id].ts) {
      StaleFromMarks(v, w, id, m[id].ts);
    }
    PlainIsLegal(s, us, clock, size);
  }

  /** Deleting a row. */
  lemma DeletingARowIsLegal(s: State, t: string, r: string, ts: Timestamp, size: Size)
    requires Consistent(s) && s.clock < ts && !IsSystem(t)
    ensures LegalStep(s, Plain([LocalUpdate(CellId(t, r, ROW_DELETED), Bool(true), ts)], ts), size)
  {
    UnmarkedIsLegal(s, [LocalUpdate(CellId(t, r, ROW_DELETED), Bool(true), ts)], ts, size);
  }

  // ---- deleting columns and tables ----

  lemma GreatestOfMore(a: set<string>, b: set<string>, row: string)
    requires a != {} && b == a + {row} && Greatest(b) != row
    ensures Greatest(a) == Greatest(b)
  {
    LessIsStrictTotal(Greatest(a), Greatest(b));
  }

  /** Between the two states one schema row's deletion mark moves to `ts`. */
  ghost predicate MarksRow(v: Values, w: Values, row: string, ts: Timestamp) {
    && (forall r :: AgreeOn(v, w, CellId(SCHEMA, r, "table_id")) && AgreeOn(v, w, CellId(SCHEMA, r, "column_id")))
    && (forall r :: DeletedAt(w, r) == if r == row then Some(ts) else DeletedAt(v, r))
  }

  lemma MarkedCutoff(v: Values, w: Values, row: string, ts: Timestamp, t: string, col: string)
    requires MarksRow(v, w, row, ts)
    ensures ColumnCutoff(w, t, col) == ColumnCutoff(v, t, col) || ColumnCutoff(w, t, col) == Some(ts)
  {
    SameColumnRows(v, w, t, col);
    var rows := ColumnRows(v, t, col);
    var a, b := set r | r in rows && DeletedAt(v, r).Some?, set r | r in rows && DeletedAt(w, r).Some?;
    if row in rows {
      assert b == a + {row};
      if Greatest(b) != row { GreatestOfMore(a, b, row); }
    } else {
      assert a == b;
    }
  }

  /** Two writes of one row of a system table, the second a deletion mark. */
  lemma MarkingWrites(s: State, us: seq<Update>, table: string, row: string, ts: Timestamp, id: CellId)
    requires Consistent(s) && s.clock < ts && IsSystem(table)
    requires us == [LocalUpdate(CellId(table, row, "deleted"), Bool(true), ts),
                    LocalUpdate(CellId(table, row, "deleted_at"), Num(ts), ts)]
    requires table == TABLES ==> !IsSystem(row)
    ensures IsFresh(s, us, ts)
    ensures var n := PutAll(s.cells, us);
      if id == CellId(table, row, "deleted_at") then id in n && n[id].value == Num(ts)
      else id != CellId(table, row, "deleted") ==> (id in n <==> id in s.cells) && (id in n ==> n[id] == s.cells[id])
  {
    assert us[0] in us && us[1] in us;
    FreshHolds(s, us, ts, id);
  }

  lemma DeletingAColumnMarks(s: State, t: string, col: string, ts: Timestamp)
    requires Consistent(s) && s.clock < ts
    ensures var us := DeleteColumnUpdates(t, col, ts);
      var v, w := ValuesOf(s.cells), ValuesOf(PutAll(s.cells, us));
      && IsFresh(s, us, ts) && MarksRow(v, w, ColumnRow(t, col), ts)
      && forall id: CellId :: id.table != SCHEMA ==> AgreeOn(v, w, id)
  {
    hide PutAll, ColumnRow, Consistent;
    var us, row := DeleteColumnUpdates(t, col, ts), ColumnRow(t, col);
    var m, n := s.cells, PutAll(s.cells, us);
    assert IsSystem(SCHEMA) && SCHEMA != TABLES;
    forall id ensures IsFresh(s, us, ts) &&
      if id == CellId(SCHEMA, row, "deleted_at") then id in n && n[id].value == Num(ts)
      else id != CellId(SCHEMA, row, "deleted") ==> (id in n <==> id in m) && (id in n ==> n[id] == m[id])
    {
      MarkingWrites(s, us, SCHEMA, row, ts, id);
    }
  }

  /** Deleting a column. */
  lemma DeletingAColumnIsLegal(s: State, t: string, col: string, ts: Timestamp, size: Size)
    requires Consistent(s) && s.clock < ts
    ensures LegalStep(s, Plain(DeleteColumnUpdates(t, col, ts), ts), size)
  {
    hide PutAll, MarksRow, ColumnCutoff, LegalStep;
    var us, m := DeleteColumnUpdates(t, col, ts), s.cells;
    var n := PutAll(m, us);
    var v, w := ValuesOf(m), ValuesOf(n);
    DeletingAColumnMarks(s, t, col, ts);
    forall id | id in m && !IsSystem(id.table)
      ensures Stale(v, id, m[id].ts) ==> Stale(w, id, m[id].ts)
      ensures RowDeleted(v, id.table, id.row) ==> RowDeleted(w, id.table, id.row)
    {
      MarkedCutoff(v, w, ColumnRow(t, col), ts, id.table, id.col);
      assert AgreeOn(v, w, CellId(TABLES, id.table, "deleted_at"))
        && AgreeOn(v, w, CellId(id.table, id.row, ROW_DELETED));
    }
    PlainIsLegal(s, us, ts, size);
  }

  lemma DeletingATableMarks(s: State, t: string, ts: Timestamp)
    requires Consistent(s) && s.clock < ts && !IsSystem(t)
    ensures var us := DeleteTableUpdates(t, ts);
      var v, w := ValuesOf(s.cells), ValuesOf(PutAll(s.cells, us));
      && IsFresh(s, us, ts) && (forall id: CellId :: id.table != TABLES ==> AgreeOn(v, w, id))
      && forall t2 :: TableFloor(w, t2) == if t2 == t then Some(ts) else TableFloor(v, t2)
  {
    hide PutAll;
    var us, m := DeleteTableUpdates(t, ts), s.cells;
    var n := PutAll(m, us);
    assert IsSystem(TABLES);
    forall id ensures IsFresh(s, us, ts) &&
      if id == CellId(TABLES, t, "deleted_at") then id in n && n[id].value == Num(ts)
      else id != CellId(TABLES, t, "deleted") ==> (id in n <==> id in m) && (id in n ==> n[id] == m[id])
    {
      MarkingWrites(s, us, TABLES, t, ts, id);
    }
  }

  lemma SameSchemaSameDeletedRows(v: Values, w: Values)
    requires forall id: CellId :: id.table != TABLES ==> AgreeOn(v, w, id)
    ensures SameDeletedRows(v, w)
  {
    SchemaIsNotTheRegistry();
    forall r ensures DeletedAt(v, r) == DeletedAt(w, r) { assert AgreeOn(v, w, CellId(SCHEMA, r, "deleted_at")); }
  }

  /** Deleting a table. */
  lemma DeletingATableIsLegal(s: State, t: string, ts: Timestamp, size: Size)
    requires Consistent(s) && s.clock < ts && !IsSystem(t)
    ensures LegalStep(s, Plain(DeleteTableUpdates(t, ts), ts), size)
  {
    hide PutAll, LegalStep, ColumnCutoff, Consistent, SameDeletedRows, TableFloor, DeleteTableUpdates;
    var us, m := DeleteTableUpdates(t, ts), s.cells;
    var n := PutAll(m, us);
    var v, w := ValuesOf(m), ValuesOf(n);
    DeletingATableMarks(s, t, ts);
    SameSchemaSameDeletedRows(v, w);
    forall id | id in m && !IsSystem(id.table)
      ensures Stale(v, id, m[id].ts) ==> Stale(w, id, m[id].ts)
      ensures RowDeleted(v, id.table, id.row) ==> RowDeleted(w, id.table, id.row)
    {
      SameDeletedRowsCutoff(v, w, id.table, id.col);
      assert id.table != TABLES && AgreeOn(v, w, CellId(id.table, id.row, ROW_DELETED));
      StampWithin(s, us, ts, id);
    }
    PlainIsLegal(s, us, ts, size);
  }

  lemma StampWithin(s: State, us: seq<Update>, clock: Timestamp, id: CellId)
    requires Consistent(s) && IsFresh(s, us, clock) && id in s.cells
    ensures s.cells[id].ts <= s.clock
  {
  }

  // ---- adding ----

  /** The schema rows that carry a deletion mark describe the same columns, deleted when they
      were. */
  ghost predicate SameDeletedRows(v: Values, w: Values) {
    forall r :: DeletedAt(v, r) == DeletedAt(w, r)
      && (DeletedAt(v, r).Some? ==>
        AgreeOn(v, w, CellId(SCHEMA, r, "table_id")) && AgreeOn(v, w, CellId(SCHEMA, r, "column_id")))
  }

  lemma SameDeletedRowsCutoff(v: Values, w: Values, t: string, col: string)
    requires SameDeletedRows(v, w)
    ensures ColumnCutoff(v, t, col) == ColumnCutoff(w, t, col)
  {
    forall r | DeletedAt(v, r).Some? ensures r in ColumnRows(v, t, col) <==> r in ColumnRows(w, t, col) {
      InColumnRows(v, t, col, r);
      InColumnRows(w, t, col, r);
    }
    assert (set r | r in ColumnRows(v, t, col) && DeletedAt(v, r).Some?) ==
      (set r | r in ColumnRows(w, t, col) && DeletedAt(w, r).Some?);
  }

  /** The update describes column `col` of table `t`, and marks no deletion. */
  predicate DescribesColumn(u: Update, t: string, col: string) {
    && u.id.table == SCHEMA && u.id.row == ColumnRow(t, col) && u.id.col != "deleted_at"
    && (u.id.col == "table_id" ==> u.cell.value == Str(t)) && (u.id.col == "column_id" ==> u.cell.value == Str(col))
  }

  /** The updates describe the columns `cols` of table `t`, each by both its ids, and mark no
      deletion; the rest are registry cells of the table. */
  ghost predicate Describe(us: seq<Update>, t: string, cols: set<string>) {
    && (forall u :: u in us ==>
          || (u.id.table == TABLES && u.id.row == t && u.id.col != "deleted_at")
          || exists col :: col in cols && DescribesColumn(u, t, col))
    && (forall col :: col in cols ==>
          Emits(us, CellId(SCHEMA, ColumnRow(t, col), "table_id")) &&
          Emits(us, CellId(SCHEMA, ColumnRow(t, col), "column_id")))
  }

  /** The schema rows that columns `cols` of table `t` are written to.  Rows are named by
      joining the two ids with a dot, so the row of another column may bear such a name. */
  function RowsOf(t: string, cols: set<string>): set<string> {
    set col | col in cols :: ColumnRow(t, col)
  }

  /** The rows that describe a column once columns `cols` of table `t2` have been written. */
  function RowsAfter(v: Values, t: string, col: string, t2: string, cols: set<string>): set<string> {
    (ColumnRows(v, t, col) - RowsOf(t2, cols)) + if t == t2 && col in cols then {ColumnRow(t, col)} else {}
  }

  lemma WrittenRow(s: State, us: seq<Update>, clock: Timestamp, t2: string, cols: set<string>, c: string)
    requires Consistent(s) && IsFresh(s, us, clock) && Describe(us, t2, cols) && c in cols
    ensures var w, row := ValuesOf(PutAll(s.cells, us)), ColumnRow(t2, c);
      Is(w, CellId(SCHEMA, row, "table_id"), Str(t2)) && Is(w, CellId(SCHEMA, row, "column_id"), Str(c))
  {
    hide PutAll, Consistent, ColumnRow;
    SchemaIsNotTheRegistry();
    forall field | field == "table_id" || field == "column_id"
      ensures Is(ValuesOf(PutAll(s.cells, us)), CellId(SCHEMA, ColumnRow(t2, c), field),
        Str(if field == "table_id" then t2 else c))
    {
      var id := CellId(SCHEMA, ColumnRow(t2, c), field);
      FreshHolds(s, us, clock, id);
      var u :| u in us && u.id == id;
      var col :| col in cols && DescribesColumn(u, t2, col);
      SameColumnRow(t2, col, c);
    }
  }

  lemma OtherSchemaCell(s: State, us: seq<Update>, clock: Timestamp, t2: string, cols: set<string>, id: CellId)
    requires Consistent(s) && IsFresh(s, us, clock) && Describe(us, t2, cols) && id.table == SCHEMA
    requires id.col == "deleted_at" || id.row !in RowsOf(t2, cols)
    ensures !Emits(us, id) && AgreeOn(ValuesOf(s.cells), ValuesOf(PutAll(s.cells, us)), id)
  {
    hide PutAll, Consistent, ColumnRow;
    SchemaIsNotTheRegistry();
    FreshHolds(s, us, clock, id);
  }

  lemma RowsAreAfter(s: State, us: seq<Update>, clock: Timestamp, t2: string, cols: set<string>, t: string, col: string)
    requires Consistent(s) && IsFresh(s, us, clock) && Describe(us, t2, cols)
    ensures ColumnRows(ValuesOf(PutAll(s.cells, us)), t, col) == RowsAfter(ValuesOf(s.cells), t, col, t2, cols)
  {
    hide PutAll, Consistent, ColumnRow, Describe;
    var v, w := ValuesOf(s.cells), ValuesOf(PutAll(s.cells, us));
    forall r ensures r in ColumnRows(w, t, col) <==> r in RowsAfter(v, t, col, t2, cols) {
      InColumnRows(v, t, col, r);
      InColumnRows(w, t, col, r);
      if r in RowsOf(t2, cols) {
        var c :| c in cols && r == ColumnRow(t2, c);
        WrittenRow(s, us, clock, t2, cols, c);
        SameColumnRow(t2, c, col);
      } else {
        OtherSchemaCell(s, us, clock, t2, cols, CellId(SCHEMA, r, "table_id"));
        OtherSchemaCell(s, us, clock, t2, cols, CellId(SCHEMA, r, "column_id"));
      }
    }
  }

  /** A cutoff after the writes: the last mark among the rows that then describe the column. */
  lemma CutoffIsAfter(s: State, us: seq<Update>, clock: Timestamp, t2: string, cols: set<string>, t: string,
                      col: string)
    requires Consistent(s) && IsFresh(s, us, clock) && Describe(us, t2, cols)
    ensures ColumnCutoff(ValuesOf(PutAll(s.cells, us)), t, col) ==
      LastMark(ValuesOf(s.cells), RowsAfter(ValuesOf(s.cells), t, col, t2, cols))
  {
    hide PutAll, Consistent, ColumnRow, Describe, ColumnRows, RowsAfter;
    var v, w := ValuesOf(s.cells), ValuesOf(PutAll(s.cells, us));
    RowsAreAfter(s, us, clock, t2, cols, t, col);
    forall r ensures DeletedAt(v, r) == DeletedAt(w, r) {
      OtherSchemaCell(s, us, clock, t2, cols, CellId(SCHEMA, r, "deleted_at"));
    }
    SameMarksSameLast(v, w, RowsAfter(v, t, col, t2, cols));
  }

  lemma SameMarksSameLast(v: Values, w: Values, rows: set<string>)
    requires forall r :: DeletedAt(v, r) == DeletedAt(w, r)
    ensures LastMark(v, rows) == LastMark(w, rows)
  {
    assert (set r | r in rows && DeletedAt(v, r).Some?) == (set r | r in rows && DeletedAt(w, r).Some?);
  }

  /** Writing columns `cols` of table `t2` would free the cell: its column's cutoff hides it and
      will not do so any more, and nothing else does. */
  predicate Freed(m: CellMap, t2: string, cols: set<string>, id: CellId) {
    && id in m && !IsSystem(id.table)
    && AtOrBefore(m[id].ts, ColumnCutoff(ValuesOf(m), id.table, id.col))
    && !AtOrBefore(m[id].ts, LastMark(ValuesOf(m), RowsAfter(ValuesOf(m), id.table, id.col, t2, cols)))
    && !AtOrBefore(m[id].ts, TableFloor(ValuesOf(m), id.table))
    && (id.col == ROW_DELETED || !RowDeleted(ValuesOf(m), id.table, id.row))
  }

  /** What the writes leave of a data cell and of what hides it. */
  lemma DescribingElsewhere(s: State, us: seq<Update>, clock: Timestamp, t2: string, cols: set<string>, id: CellId)
    requires Consistent(s) && IsFresh(s, us, clock) && Describe(us, t2, cols) && !IsSystem(id.table)
    ensures var m, n := s.cells, PutAll(s.cells, us);
      && !Emits(us, id) && (id in n <==> id in m) && (id in m ==> n[id] == m[id])
      && TableFloor(ValuesOf(n), id.table) == TableFloor(ValuesOf(m), id.table)
      && (RowDeleted(ValuesOf(n), id.table, id.row) <==> RowDeleted(ValuesOf(m), id.table, id.row))
  {
    hide PutAll, Consistent, ColumnRow;
    SchemaIsNotTheRegistry();
    var floor, tomb := CellId(TABLES, id.table, "deleted_at"), CellId(id.table, id.row, ROW_DELETED);
    assert !Emits(us, floor) && !Emits(us, tomb) && !Emits(us, id);
    FreshHolds(s, us, clock, floor);
    FreshHolds(s, us, clock, tomb);
    FreshHolds(s, us, clock, id);
  }

  lemma LiveAfterDescribing(s: State, us: seq<Update>, clock: Timestamp, t2: string, cols: set<string>, id: CellId)
    requires Consistent(s) && IsFresh(s, us, clock) && Describe(us, t2, cols) && !IsSystem(id.table)
    ensures !Emits(us, id)
    ensures Freed(s.cells, t2, cols, id) <==> Bumpable(PutAll(s.cells, us), id) && !Bumpable(s.cells, id)
  {
    hide PutAll, Consistent, ColumnCutoff, LastMark, RowsAfter, TableFloor, RowDeleted, IsFresh, Describe, Emits;
    DescribingElsewhere(s, us, clock, t2, cols, id);
    CutoffIsAfter(s, us, clock, t2, cols, id.table, id.col);
  }

  /** Describing columns is a step of a run exactly if it frees no cell. */
  lemma DescribingIsLegalIff(s: State, us: seq<Update>, clock: Timestamp, t2: string, cols: set<string>, size: Size)
    requires Consistent(s) && IsFresh(s, us, clock) && Describe(us, t2, cols)
    ensures LegalStep(s, Plain(us, clock), size) <==> forall id :: !Freed(s.cells, t2, cols, id)
  {
    hide PutAll, Freed, Describe;
    var m, n := s.cells, PutAll(s.cells, us);
    ApplyAllFacts(s.(clock := clock), us);
    forall id: CellId | !IsSystem(id.table)
      ensures !Emits(us, id) && (Freed(m, t2, cols, id) <==> Bumpable(n, id) && !Bumpable(m, id))
    {
      LiveAfterDescribing(s, us, clock, t2, cols, id);
    }
    forall id: CellId | IsSystem(id.table) && Bumpable(n, id) && !Emits(us, id) ensures Bumpable(m, id) {
      FreshHolds(s, us, clock, id);
    }
    forall id: CellId ensures Freed(m, t2, cols, id) ==> !IsSystem(id.table) { FreedIsData(m, t2, cols, id); }
  }

  lemma FreedIsData(m: CellMap, t2: string, cols: set<string>, id: CellId)
    ensures Freed(m, t2, cols, id) ==> !IsSystem(id.table)
  {
  }

  lemma {:induction false} FieldsAreDistinct(row: string, fields: seq<Field>, ts: Timestamp)
    requires GoodFields(fields, ts) && FieldNamesDiffer(fields)
    ensures DistinctIds(FieldUpdates(row, fields, ts))
    decreases |fields|
  {
    if fields != [] {
      var rest := fields[1..];
      FieldsAreDistinct(row, rest, ts);
      forall u | u in FieldUpdates(row, rest, ts) ensures u.id != CellId(SCHEMA, row, fields[0].cell) {
        var k := FieldsWritten(row, rest, ts, u);
        assert fields[k + 1].cell != fields[0].cell;
      }
    }
  }

  predicate FieldDescribes(f: Field, t: string, c: Column) {
    && f.cell != "deleted_at"
    && (f.cell == "table_id" ==> f.value == Some(Str(t))) && (f.cell == "column_id" ==> f.value == Some(Str(c.id)))
  }

  lemma AddedFieldNamesDiffer(t: string, c: Column, order: int)
    ensures FieldNamesDiffer(AddFields(t, c, order))
    ensures forall f :: f in AddFields(t, c, order) ==> FieldDescribes(f, t, c)
  {
  }

  lemma AddedFieldsDescribe(t: string, c: Column, order: int, ts: Timestamp)
    requires ts + COLUMN_SPAN <= U64_MAX
    ensures var us := AddColumnUpdates(t, c, order, ts);
      DistinctIds(us) && forall u :: u in us ==> DescribesColumn(u, t, c.id) && ts <= u.cell.ts < ts + COLUMN_SPAN
  {
    hide AddFields, FieldNamesDiffer, FieldUpdates;
    var us, row, fields := AddColumnUpdates(t, c, order, ts), ColumnRow(t, c.id), AddFields(t, c, order);
    AddedFieldNamesDiffer(t, c, order);
    FieldsAreDistinct(row, fields, ts);
    forall u | u in us ensures DescribesColumn(u, t, c.id) {
      var k := FieldsWritten(row, fields, ts, u);
      assert fields[k] in fields && FieldDescribes(fields[k], t, c);
    }
  }

  lemma IdsAreWritten(row: string, fields: seq<Field>, ts: Timestamp)
    requires GoodFields(fields, ts) && |fields| >= 2
    requires fields[0].cell == "table_id" && fields[0].value.Some? && fields[1].cell == "column_id"
      && fields[1].value.Some?
    ensures var us := FieldUpdates(row, fields, ts);
      Emits(us, CellId(SCHEMA, row, "table_id")) && Emits(us, CellId(SCHEMA, row, "column_id"))
  {
    FieldIsWritten(row, fields, ts, 0);
    FieldIsWritten(row, fields, ts, 1);
  }

  lemma AddingDescribes(t: string, c: Column, order: int, ts: Timestamp, us: seq<Update>)
    requires ts + COLUMN_SPAN <= U64_MAX && us == AddColumnUpdates(t, c, order, ts)
    ensures DistinctIds(us) && Describe(us, t, {c.id})
    ensures forall u :: u in us ==> u.id.table == SCHEMA && ts <= u.cell.ts < ts + COLUMN_SPAN
  {
    AddedFieldsDescribe(t, c, order, ts);
    var fields := AddFields(t, c, order);
    hide FieldUpdates, ColumnRow;
    IdsAreWritten(ColumnRow(t, c.id), fields, ts);
  }

  /** Adding a column, new or deleted before, is a step of a run exactly if it frees no cell. */
  lemma AddingAColumnIsLegalIff(s: State, t: string, c: Column, order: int, ts: Timestamp, clock: Timestamp, size: Size)
    requires Consistent(s) && s.clock < ts && ts + COLUMN_SPAN <= clock
    ensures LegalStep(s, Plain(AddColumnUpdates(t, c, order, ts), clock), size)
      <==> forall id :: !Freed(s.cells, t, {c.id}, id)
  {
    hide AddColumnUpdates, LegalStep, Consistent, Freed, Describe;
    var us := AddColumnUpdates(t, c, order, ts);
    AddingDescribes(t, c, order, ts, us);
    SchemaIsNotTheRegistry();
    DescribingIsLegalIff(s, us, clock, t, {c.id}, size);
  }

  // ---- rows that bear their columns' names ----

  /** Every schema row is named after the column it describes. */
  ghost predicate RowsBearTheirNames(v: Values) {
    forall t, col, r :: r in ColumnRows(v, t, col) ==> r == ColumnRow(t, col)
  }

  /** Describing columns keeps this, as does whatever writes no ids of columns; an empty
      workspace has it. */
  lemma NamesAreKept(s: State, us: seq<Update>, clock: Timestamp, t2: string, cols: set<string>)
    requires Consistent(s) && IsFresh(s, us, clock) && Describe(us, t2, cols) && RowsBearTheirNames(ValuesOf(s.cells))
    ensures RowsBearTheirNames(ValuesOf(PutAll(s.cells, us)))
  {
    hide PutAll, Consistent, ColumnRow, Describe, ColumnRows;
    forall t, col, r | r in ColumnRows(ValuesOf(PutAll(s.cells, us)), t, col) ensures r == ColumnRow(t, col) {
      RowsAreAfter(s, us, clock, t2, cols, t, col);
    }
  }

  lemma NamesAreKeptElsewhere(s: State, us: seq<Update>, clock: Timestamp)
    requires Consistent(s) && IsFresh(s, us, clock) && RowsBearTheirNames(ValuesOf(s.cells))
    requires forall u :: u in us && u.id.table == SCHEMA ==> u.id.col != "table_id" && u.id.col != "column_id"
    ensures RowsBearTheirNames(ValuesOf(PutAll(s.cells, us))) && RowsBearTheirNames(ValuesOf(EMPTY.cells))
  {
    hide PutAll, Consistent, ColumnRow;
    var v, w := ValuesOf(s.cells), ValuesOf(PutAll(s.cells, us));
    forall r ensures AgreeOn(v, w, CellId(SCHEMA, r, "table_id")) && AgreeOn(v, w, CellId(SCHEMA, r, "column_id")) {
      FreshHolds(s, us, clock, CellId(SCHEMA, r, "table_id"));
      FreshHolds(s, us, clock, CellId(SCHEMA, r, "column_id"));
    }
    forall t, col, r | r in ColumnRows(w, t, col) ensures r == ColumnRow(t, col) { SameColumnRows(v, w, t, col); }
  }

  /** The cell's column owns the row that another column is written to, and the row's deletion
      mark is all that hides the cell. */
  predicate LosesItsRow(m: CellMap, t2: string, cols: set<string>, id: CellId) {
    var row := ColumnRow(id.table, id.col);
    && id in m && !IsSystem(id.table) && !(id.table == t2 && id.col in cols)
    && row in RowsOf(t2, cols) && row in ColumnRows(ValuesOf(m), id.table, id.col)
    && AtOrBefore(m[id].ts, DeletedAt(ValuesOf(m), row))
    && !AtOrBefore(m[id].ts, TableFloor(ValuesOf(m), id.table))
    && (id.col == ROW_DELETED || !RowDeleted(ValuesOf(m), id.table, id.row))
  }

  lemma OneRowLastMark(v: Values, rows: set<string>, row: string)
    requires rows == {} || rows == {row}
    ensures LastMark(v, rows) == if row in rows then DeletedAt(v, row) else None
  {
    if rows == {row} && DeletedAt(v, row).Some? {
      assert (set r | r in rows && DeletedAt(v, r).Some?) == {row};
    }
  }

  /** So writing columns frees exactly the cells whose column loses its row to another. */
  lemma FreedIffItLosesItsRow(m: CellMap, t2: string, cols: set<string>, id: CellId)
    requires RowsBearTheirNames(ValuesOf(m))
    ensures Freed(m, t2, cols, id) <==> LosesItsRow(m, t2, cols, id)
  {
    hide ColumnRow, ColumnRows, LastMark, TableFloor, RowDeleted;
    var v, row := ValuesOf(m), ColumnRow(id.table, id.col);
    var rows, later := ColumnRows(v, id.table, id.col), RowsAfter(v, id.table, id.col, t2, cols);
    assert forall r :: r in rows ==> r == row;
    assert rows == {} || rows == {row};
    assert later == {} || later == {row};
    OneRowLastMark(v, rows, row);
    OneRowLastMark(v, later, row);
    if id.table == t2 && id.col in cols { assert row in RowsOf(t2, cols); }
  }

  const DOTTED: CellId := CellId("a.b", "r", "c")

  /** Table "a.b" with a cell in its column "c", which has since been deleted. */
  function DottedState(value: Value): State {
    State(map[CellId(SCHEMA, "a.b.c", "table_id") := Cell(Str("a.b"), 1, None),
              CellId(SCHEMA, "a.b.c", "column_id") := Cell(Str("c"), 2, None),
              CellId(SCHEMA, "a.b.c", "deleted_at") := Cell(Num(5), 5, None),
              DOTTED := Cell(value, 3, None)], {"a.b"}, 5)
  }

  lemma DottedStateIsNamed(value: Value)
    ensures Consistent(DottedState(value)) && RowsBearTheirNames(ValuesOf(DottedState(value).cells))
  {
    assert ColumnRow("a.b", "c") == "a.b.c";
    var v := ValuesOf(DottedState(value).cells);
    forall t, col, r | r in ColumnRows(v, t, col) ensures r == ColumnRow(t, col) { InColumnRows(v, t, col, r); }
  }

  lemma DottedLosesItsRow(value: Value)
    ensures LosesItsRow(DottedState(value).cells, "a", {"b.c"}, DOTTED)
  {
    hide ColumnRows, RowsOf;
    assert ColumnRow("a.b", "c") == "a.b.c" == ColumnRow("a", "b.c");
    InRowsOf("a", {"b.c"}, "b.c");
    InColumnRows(ValuesOf(DottedState(value).cells), "a.b", "c", "a.b.c");
  }

  lemma InRowsOf(t: string, cols: set<string>, col: string)
    requires col in cols
    ensures ColumnRow(t, col) in RowsOf(t, cols)
  {
  }

  /** Two ids joined by a dot do not tell where the dot was: the column "b.c" added to table
      "a" shares the schema row of column "c" of table "a.b".  It takes the deletion mark over,
      and the cell the mark hid comes back. */
  lemma DottedIdsCollide(value: Value, c: Column, order: int, clock: Timestamp, size: Size)
    requires c.id == "b.c" && 6 + COLUMN_SPAN <= clock
    ensures var s := DottedState(value);
      && Consistent(s) && Freed(s.cells, "a", {c.id}, DOTTED)
      && !LegalStep(s, Plain(AddColumnUpdates("a", c, order, 6), clock), size)
  {
    hide LegalStep, AddColumnUpdates, Freed, LosesItsRow, Consistent, RowsBearTheirNames;
    var s := DottedState(value);
    DottedStateIsNamed(value);
    DottedLosesItsRow(value);
    FreedIffItLosesItsRow(s.cells, "a", {c.id}, DOTTED);
    AddingAColumnIsLegalIff(s, "a", c, order, 6, clock, size);
  }

  lemma SchemaIsNotTheRegistry()
    ensures KindOf(SCHEMA) == SchemaTable && SCHEMA != TABLES
  {
  }

  lemma NewFieldNamesDiffer(t: string, c: Column, idx: nat)
    ensures FieldNamesDiffer(NewFields(t, c, idx))
  {
  }

  lemma NewFieldsBelong(t: string, c: Column, idx: nat)
    ensures forall f :: f in NewFields(t, c, idx) ==> FieldDescribes(f, t, c)
  {
  }

  lemma NewFieldsDescribe(t: string, c: Column, idx: nat, ts: Timestamp)
    requires ts + COLUMN_SPAN <= U64_MAX
    ensures var us := NewColumn(t, c, idx, ts);
      DistinctIds(us) && forall u :: u in us ==> DescribesColumn(u, t, c.id) && ts <= u.cell.ts < ts + COLUMN_SPAN
  {
    hide NewFields, FieldNamesDiffer, FieldUpdates;
    var us, row, fields := NewColumn(t, c, idx, ts), ColumnRow(t, c.id), NewFields(t, c, idx);
    NewFieldNamesDiffer(t, c, idx);
    NewFieldsBelong(t, c, idx);
    FieldsAreDistinct(row, fields, ts);
    forall u | u in us ensures DescribesColumn(u, t, c.id) {
      var k := FieldsWritten(row, fields, ts, u);
      assert fields[k] in fields && FieldDescribes(fields[k], t, c);
    }
  }

  ghost predicate DistinctColumns(cs: seq<Column>) {
    forall i, j :: 0 <= i < j < |cs| ==> cs[i].id != cs[j].id
  }

  lemma DistinctIdsJoin(a: seq<Update>, b: seq<Update>)
    requires DistinctIds(a) && DistinctIds(b) && forall u, v :: u in a && v in b ==> u.id != v.id
    ensures DistinctIds(a + b)
  {
  }

  /** Each update describes one of the columns. */
  ghost predicate DescribeColumns(us: seq<Update>, t: string, cs: seq<Column>) {
    forall u :: u in us ==> exists c :: c in cs && DescribesColumn(u, t, c.id)
  }

  lemma OtherColumnsApart(a: seq<Update>, b: seq<Update>, t: string, cs: seq<Column>, last: Column)
    requires DescribeColumns(a, t, cs) && forall u :: u in b ==> DescribesColumn(u, t, last.id)
    requires forall c :: c in cs ==> c.id != last.id
    ensures forall u, v :: u in a && v in b ==> u.id != v.id
  {
    hide ColumnRow;
    forall u, v | u in a && v in b ensures u.id != v.id {
      var c :| c in cs && DescribesColumn(u, t, c.id);
      SameColumnRow(t, c.id, last.id);
    }
  }

  lemma MoreColumns(a: seq<Update>, b: seq<Update>, t: string, cs: seq<Column>, n: nat)
    requires |cs| == n + 1 && DescribeColumns(a, t, cs[..n]) && forall u :: u in b ==> DescribesColumn(u, t, cs[n].id)
    ensures DescribeColumns(a + b, t, cs)
  {
    hide DescribesColumn;
    assert cs[n] in cs && forall c :: c in cs[..n] ==> c in cs;
  }

  lemma {:induction false} NewColumnsDescribe(t: string, cs: seq<Column>, ts: Timestamp)
    requires DistinctColumns(cs) && ts + COLUMN_SPAN * |cs| <= U64_MAX
    ensures var us := NewColumns(t, cs, ts);
      DistinctIds(us) && DescribeColumns(us, t, cs) && forall u :: u in us ==> ts <= u.cell.ts < ts + COLUMN_SPAN * |cs|
  {
    hide NewColumn, DescribesColumn, DescribeColumns, DistinctIds;
    if cs == [] {
      NothingDescribed(t, cs);
    } else {
      var n := |cs| - 1;
      var at := ts + COLUMN_SPAN * n;
      NewColumnsDescribe(t, cs[..n], ts);
      NewFieldsDescribe(t, cs[n], n, at);
      var a, b := NewColumns(t, cs[..n], ts), NewColumn(t, cs[n], n, at);
      OtherColumnsApart(a, b, t, cs[..n], cs[n]);
      DistinctIdsJoin(a, b);
      MoreColumns(a, b, t, cs, n);
    }
  }

  lemma NothingDescribed(t: string, cs: seq<Column>)
    ensures DistinctIds([]) && DescribeColumns([], t, cs)
  {
  }

  lemma CreateTableDescribes(def: Table, ts: Timestamp)
    requires DistinctColumns(def.columns) && ts + 2 + COLUMN_SPAN * |def.columns| <= U64_MAX
    ensures var us := CreateTableUpdates(def, ts);
      && DistinctIds(us)
      && forall u :: u in us ==>
        && ts <= u.cell.ts <= ts + 2 + COLUMN_SPAN * |def.columns|
        && ((u.id.table == TABLES && u.id.row == def.id && u.id.col != "deleted_at")
            || exists c :: c in def.columns && DescribesColumn(u, def.id, c.id))
  {
    hide NewColumns, ColumnRow;
    NewColumnsDescribe(def.id, def.columns, ts + 2);
    SchemaIsNotTheRegistry();
    var columns := NewColumns(def.id, def.columns, ts + 2);
    var registry := CreateTableUpdates(def, ts)[..if def.description.Some? then 3 else 2];
    assert CreateTableUpdates(def, ts) == registry + columns;
    DistinctIdsJoin(registry, columns);
  }

  lemma {:induction false} NewColumnsWriteIds(t: string, cs: seq<Column>, ts: Timestamp, c: Column)
    requires ts + COLUMN_SPAN * |cs| <= U64_MAX && c in cs
    ensures var us, row := NewColumns(t, cs, ts), ColumnRow(t, c.id);
      Emits(us, CellId(SCHEMA, row, "table_id")) && Emits(us, CellId(SCHEMA, row, "column_id"))
  {
    hide ColumnRow, FieldUpdates;
    var n := |cs| - 1;
    if cs[n] == c {
      IdsAreWritten(ColumnRow(t, c.id), NewFields(t, c, n), ts + COLUMN_SPAN * n);
    } else {
      NewColumnsWriteIds(t, cs[..n], ts, c);
    }
  }

  function IdsOf(cs: seq<Column>): set<string> {
    set c | c in cs :: c.id
  }

  lemma CreatingWritesIds(def: Table, ts: Timestamp, c: Column)
    requires ts + 2 + COLUMN_SPAN * |def.columns| <= U64_MAX && c in def.columns
    ensures var us, row := CreateTableUpdates(def, ts), ColumnRow(def.id, c.id);
      Emits(us, CellId(SCHEMA, row, "table_id")) && Emits(us, CellId(SCHEMA, row, "column_id"))
  {
    hide ColumnRow, NewColumns;
    NewColumnsWriteIds(def.id, def.columns, ts + 2, c);
    assert forall u :: u in NewColumns(def.id, def.columns, ts + 2) ==> u in CreateTableUpdates(def, ts);
  }

  lemma ColumnIsAmongIds(cs: seq<Column>, id: string)
    ensures id in IdsOf(cs) <==> exists c :: c in cs && c.id == id
  {
  }

  lemma CreatingDescribes(def: Table, ts: Timestamp, us: seq<Update>)
    requires DistinctColumns(def.columns) && ts + 2 + COLUMN_SPAN * |def.columns| <= U64_MAX
    requires us == CreateTableUpdates(def, ts)
    ensures DistinctIds(us) && Describe(us, def.id, IdsOf(def.columns))
    ensures forall u :: u in us ==> ts <= u.cell.ts <= ts + 2 + COLUMN_SPAN * |def.columns|
    ensures forall u :: u in us ==> u.id.table == SCHEMA || (u.id.table == TABLES && u.id.row == def.id)
  {
    hide DescribesColumn, ColumnRow, CreateTableUpdates, IdsOf, Emits, DistinctColumns, DistinctIds;
    CreateTableDescribes(def, ts);
    forall u | u in us && !(u.id.table == TABLES && u.id.row == def.id && u.id.col != "deleted_at")
      ensures u.id.table == SCHEMA && exists col :: col in IdsOf(def.columns) && DescribesColumn(u, def.id, col)
    {
      var c :| c in def.columns && DescribesColumn(u, def.id, c.id);
      DescribesItsTable(u, def.id, c.id);
      ColumnIsAmongIds(def.columns, c.id);
    }
    forall col | col in IdsOf(def.columns)
      ensures Emits(us, CellId(SCHEMA, ColumnRow(def.id, col), "table_id"))
        && Emits(us, CellId(SCHEMA, ColumnRow(def.id, col), "column_id"))
    {
      ColumnIsAmongIds(def.columns, col);
      var c :| c in def.columns && c.id == col;
      CreatingWritesIds(def, ts, c);
    }
  }

  lemma DescribesItsTable(u: Update, t: string, col: string)
    requires DescribesColumn(u, t, col)
    ensures u.id.table == SCHEMA
  {
  }

  /** Creating a table is a step of a run exactly if its columns free no cell.  (Creating one
      again that has cells here also drops these, which is no such step.) */
  lemma CreatingATableIsLegalIff(s: State, def: Table, ts: Timestamp, clock: Timestamp, size: Size)
    requires Consistent(s) && s.clock < ts && ts + 2 + COLUMN_SPAN * |def.columns| <= clock && !IsSystem(def.id)
    requires DistinctColumns(def.columns)
    ensures LegalStep(s, Plain(CreateTableUpdates(def, ts), clock), size)
      <==> forall id :: !Freed(s.cells, def.id, IdsOf(def.columns), id)
  {
    hide CreateTableUpdates, LegalStep, Consistent, Freed, Describe, IdsOf;
    var us := CreateTableUpdates(def, ts);
    CreatingDescribes(def, ts, us);
    SchemaIsNotTheRegistry();
    DescribingIsLegalIff(s, us, clock, def.id, IdsOf(def.columns), size);
  }
}
