/** Tables over consecutive operations: created, deleted and created again. */
module Lifecycle {
  import opened Cells
  import opened Reads
  import opened States
  import opened Stores
  import opened Schema
  import opened Defaults
  import opened Deletion
  import opened Effects
  import opened Operations
  import opened Declared
  import opened Workspaces

  /** The tables that are shown. */
  function Shown(s: State): set<string> {
    LiveTables(ValuesOf(s.cells), s.tables)
  }

  /** An id is taken exactly if its registry row does not read deleted and it is a table, or has
      a registered name. */
  lemma ShownMeans(s: State, t: string)
    ensures t in Shown(s) <==>
      t in s.tables && !(CellId("_tables", t, "deleted") in s.cells
                         && s.cells[CellId("_tables", t, "deleted")].value == Bool(true))
    ensures t in Shown(s) ==> IdTaken(s, t)
  {
  }

  /** What creating does to the cells: the old table's are dropped, the definition's merged. */
  ghost predicate Creates(s: State, n: State, def: Table, ts: Timestamp) {
    && DistinctColumns(def.columns) && s.clock < ts && ts + 2 + COLUMN_SPAN * |def.columns| <= U64_MAX
    && n.cells == PutAll(WithoutTable(s.cells, def.id), CreateTableUpdates(def, ts))
    && n.tables == s.tables + {def.id}
  }

  lemma CreatedIsShown(s: State, n: State, def: Table, ts: Timestamp)
    requires Consistent(s) && Creates(s, n, def, ts)
    ensures def.id in Shown(n) && IdTaken(n, def.id)
  {
    hide PutAll, CreateTableUpdates;
    NewTableReads(WithoutTable(s.cells, def.id), def, ts);
  }

  /** A deleted table is not shown, reads no default, and its id is free. */
  lemma DeletedIsGone(s: State, n: State, t: string, ts: Timestamp, col: string)
    requires Consistent(s) && s.clock < ts && n.cells == PutAll(s.cells, DeleteTableUpdates(t, ts))
    ensures t !in Shown(n) && !IdTaken(n, t) && SelectDefault(ValuesOf(n.cells), t, col) == None
  {
    hide PutAll, DeleteTableUpdates;
    DeletedTableReads(s.cells, t, ts, CellId("_tables", t, "deleted"));
  }

  /** A select column of the new table reads its default, unless the column had been deleted on
      its own before: creating a table does not take that mark off. */
  lemma CreatedDefaultIff(s: State, n: State, def: Table, ts: Timestamp, i: nat, d: Value)
    requires Consistent(s) && Creates(s, n, def, ts) && i < |def.columns| && RowsBearTheirNames(ValuesOf(n.cells))
    requires !IsSystem(def.id) && def.columns[i].kind == "select"
    requires def.columns[i].default == Some(d) && d != Null && d != Str("")
    ensures var mark := CellId("_schema", def.id + "." + def.columns[i].id, "deleted");
      SelectDefault(ValuesOf(n.cells), def.id, def.columns[i].id) ==
      if mark in s.cells && s.cells[mark].value == Bool(true) then None else Some(d)
  {
    hide PutAll, CreateTableUpdates, ColumnRows, RowsBearTheirNames, SelectDefault;
    var m, c := WithoutTable(s.cells, def.id), def.columns[i];
    var v, row := ValuesOf(n.cells), ColumnRow(def.id, c.id);
    assert row == def.id + "." + c.id;
    NewTableReads(m, def, ts);
    NewTableColumnReads(m, def, ts, i);
    NewTableLeaves(m, def, ts, CellId("_schema", row, "deleted"));
    OwnRowOnly(v, def.id, c.id);
    OneColumnDefault(v, def.id, c.id, row, d);
  }

  lemma OneColumnDefault(v: Values, t: string, col: string, row: string, d: Value)
    requires ColumnRows(v, t, col) == {row} && ParsesAsColumn(v, row) && !TableDeleted(v, t)
    requires CellId(TABLES, t, "name") in v && Is(v, CellId(SCHEMA, row, "type"), Str("select"))
    requires Is(v, CellId(SCHEMA, row, "default"), d) && !ValueIsEmpty(d)
    ensures SelectDefault(v, t, col) == if Is(v, CellId(SCHEMA, row, "deleted"), Bool(true)) then None else Some(d)
  {
    hide ColumnRows, ParsesAsColumn;
    assert (set r | r in ColumnRows(v, t, col) && ParsesAsColumn(v, r)
                    && !Is(v, CellId(SCHEMA, r, "deleted"), Bool(true))) ==
      if Is(v, CellId(SCHEMA, row, "deleted"), Bool(true)) then {} else {row};
  }

  lemma OwnRowOnly(v: Values, t: string, col: string)
    requires RowsBearTheirNames(v)
    requires Is(v, CellId(SCHEMA, ColumnRow(t, col), "table_id"), Str(t))
    requires Is(v, CellId(SCHEMA, ColumnRow(t, col), "column_id"), Str(col))
    ensures ColumnRows(v, t, col) == {ColumnRow(t, col)}
  {
    InColumnRows(v, t, col, ColumnRow(t, col));
    forall r | r in ColumnRows(v, t, col) ensures r == ColumnRow(t, col) {}
  }

  // ---- on the object ----

  /** Creating a table twice fails the second time, and leaves the table of the first. */
  method CreateTwice(ws: Workspace, def: Table, again: Table, now: Timestamp, now2: Timestamp, ghost limit: nat)
    returns (first: Result<seq<Update>>, second: Result<seq<Update>>)
    requires ws.Valid() && !IsSystem(def.id) && again.id == def.id && DistinctColumns(def.columns)
    requires ws.clock < limit && now <= limit && now2 <= limit
    requires limit + 5 + COLUMN_SPAN * |def.columns| + COLUMN_SPAN * |again.columns| <= U64_MAX
    modifies ws
    ensures ws.Valid() && second == TableAlreadyExists && def.id in Shown(ws.Model())
    ensures first.Ok? ==> Creates(old(ws.Model()), ws.Model(), def, States.NextTimestamp(old(ws.clock), now))
  {
    hide LiveTables, IdTaken, Sorted, Consistent, Flat, PutAll, ManageAll, Emptied, CreateTableUpdates;
    first := ws.CreateTable(def, now);
    if first.Ok? {
      CreateTableDescribes(def, States.NextTimestamp(old(ws.clock), now));
      CreatedIsShown(old(ws.Model()), ws.Model(), def, States.NextTimestamp(old(ws.clock), now));
    } else {
      TakenIsShown(ws.Model(), def.id);
    }
    second := ws.CreateTable(again, now2);
  }

  lemma TakenIsShown(s: State, t: string)
    requires Consistent(s) && IdTaken(s, t)
    ensures t in Shown(s)
  {
    var id := CellId(TABLES, t, "name");
    assert CreatedBy(id) == {t};
  }

  /** Deleting a table hides it and frees its id; creating it again then succeeds, shows it
      again, and shows none of its earlier rows. */
  method DeleteAndRecreate(ws: Workspace, def: Table, now: Timestamp, now2: Timestamp)
    returns (gone: Result<seq<Update>>, again: Result<seq<Update>>, ghost between: State)
    requires ws.Valid() && def.id in ws.tables && DistinctColumns(def.columns)
    requires var ts := States.NextTimestamp(States.NextTimestamp(ws.clock, now), now2);
      ts + 2 + COLUMN_SPAN * |def.columns| <= U64_MAX
    modifies ws
    ensures ws.Valid() && gone.Ok? && again.Ok?
    ensures def.id !in Shown(between) && forall col :: SelectDefault(ValuesOf(between.cells), def.id, col) == None
    ensures def.id in Shown(ws.Model()) && ListedRows(ws.Model().cells, def.id) == {}
    ensures Creates(between, ws.Model(), def, States.NextTimestamp(between.clock, now2))
  {
    hide LiveTables, IdTaken, SelectDefault, ListedRows, Sorted, Flat, PutAll, ManageAll, Emptied;
    hide CreateTableUpdates, DeleteTableUpdates, ClockCovers;
    gone := ws.DeleteTable(def.id, now);
    between := ws.Model();
    forall col ensures SelectDefault(ValuesOf(between.cells), def.id, col) == None {
      DeletedIsGone(old(ws.Model()), between, def.id, between.clock, col);
    }
    DeletedIsGone(old(ws.Model()), between, def.id, between.clock, "");
    again := ws.CreateTable(def, now2);
    CreatedIsShown(between, ws.Model(), def, States.NextTimestamp(between.clock, now2));
    CreatedIsEmpty(between, ws.Model(), def, States.NextTimestamp(between.clock, now2));
  }

  lemma CreatedIsEmpty(s: State, n: State, def: Table, ts: Timestamp)
    requires Consistent(s) && Creates(s, n, def, ts) && !IsSystem(def.id)
    ensures ListedRows(n.cells, def.id) == {}
  {
    hide PutAll, CreateTableUpdates, Listed;
    forall id | id in n.cells ensures id.table != def.id {
      if id.table == def.id {
        NewTableLeaves(WithoutTable(s.cells, def.id), def, ts, id);
      }
    }
  }
}
