/** What a workspace shows: tombstones, deletion cutoffs, listed rows and defaults. */
module Reads {
  import opened Cells
  import opened Order

  // Every reader takes the merged cells.  Schemas, views and the deletion marks are read from
  // cell values alone; only the cutoffs of user data compare timestamps.

  const SCHEMA: string := "_schema"
  const TABLES: string := "_tables"
  const VIEWS: string := "_views"
  const HISTORY: string := "_history"

  const ROW_DELETED: string := "_deleted"
  const ROW_ORDER: string := "_order"

  datatype Kind = DataTable | SchemaTable | RegistryTable | ViewsTable | HistoryTable

  function KindOf(table: string): Kind {
    if table == SCHEMA then SchemaTable
    else if table == TABLES then RegistryTable
    else if table == VIEWS then ViewsTable
    else if table == HISTORY then HistoryTable
    else DataTable
  }

  predicate IsSystem(table: string) {
    KindOf(table) != DataTable
  }

  predicate IsReserved(col: string) {
    col == ROW_DELETED || col == ROW_ORDER
  }

  type Values = map<CellId, Value>

  function ValuesOf(m: CellMap): (v: Values) {
    map id | id in m :: m[id].value
  }

  predicate Is(v: Values, id: CellId, x: Value) {
    id in v && v[id] == x
  }

  function AsU64(x: Value): Option<Timestamp> {
    if x.Num? && 0 <= x.n <= U64_MAX then Some(x.n) else None
  }

  predicate RowDeleted(v: Values, t: string, r: string) {
    Is(v, CellId(t, r, ROW_DELETED), Bool(true))
  }

  predicate TableDeleted(v: Values, t: string) {
    Is(v, CellId(TABLES, t, "deleted"), Bool(true))
  }

  /** When the table was last deleted: a cutoff for every cell of the table. */
  function TableFloor(v: Values, t: string): Option<Timestamp> {
    var id := CellId(TABLES, t, "deleted_at");
    if id in v then AsU64(v[id]) else None
  }

  /** Schema rows that describe column `col` of table `t`; the last in row-id order counts. */
  function ColumnRows(v: Values, t: string, col: string): set<string> {
    set id | id in v && id == CellId(SCHEMA, id.row, "column_id") && v[id] == Str(col)
        && Is(v, CellId(SCHEMA, id.row, "table_id"), Str(t)) :: id.row
  }

  function DeletedAt(v: Values, row: string): Option<Timestamp> {
    var id := CellId(SCHEMA, row, "deleted_at");
    if id in v then AsU64(v[id]) else None
  }

  /** The deletion mark of the last of the rows that has one. */
  function LastMark(v: Values, rows: set<string>): Option<Timestamp> {
    var marked := set r | r in rows && DeletedAt(v, r).Some?;
    if marked == {} then None else DeletedAt(v, Greatest(marked))
  }

  /** When column `col` was last deleted, if it ever was. */
  function ColumnCutoff(v: Values, t: string, col: string): Option<Timestamp> {
    LastMark(v, ColumnRows(v, t, col))
  }

  predicate AtOrBefore(ts: Timestamp, cutoff: Option<Timestamp>) {
    cutoff.Some? && ts <= cutoff.value
  }

  /** The cell was written at or before its column's or its table's deletion. */
  predicate Stale(v: Values, id: CellId, ts: Timestamp) {
    AtOrBefore(ts, ColumnCutoff(v, id.table, id.col)) || AtOrBefore(ts, TableFloor(v, id.table))
  }

  /** Cells compaction keeps alive: every system cell, and user data that is neither in a
      deleted row (its tombstone excepted) nor past a deletion cutoff. */
  predicate Bumpable(m: CellMap, id: CellId) {
    && id in m
    && (IsSystem(id.table)
        || ((id.col == ROW_DELETED || !RowDeleted(ValuesOf(m), id.table, id.row))
            && !Stale(ValuesOf(m), id, m[id].ts)))
  }

  function BumpableCells(m: CellMap): set<CellId> {
    set id | id in m && Bumpable(m, id)
  }

  // ---- rows as displayed ----

  datatype Row = Row(id: string, values: map<string, Value>)

  predicate VisibleCell(m: CellMap, id: CellId) {
    id in m && !IsReserved(id.col) && !Stale(ValuesOf(m), id, m[id].ts)
  }

  predicate Listed(m: CellMap, t: string, r: string) {
    && (exists id :: id in m && id.table == t && id.row == r)
    && !RowDeleted(ValuesOf(m), t, r)
    && (TableFloor(ValuesOf(m), t).Some? && TableFloor(ValuesOf(m), t).value > 0 ==>
          exists id :: id in m && id.table == t && id.row == r
                       && m[id].ts > TableFloor(ValuesOf(m), t).value)
  }

  function ListedRows(m: CellMap, t: string): set<string> {
    set id | id in m && id.table == t && Listed(m, t, id.row) :: id.row
  }

  lemma TombstoneUnlists(m: CellMap, t: string, r: string)
    requires CellId(t, r, ROW_DELETED) in m && m[CellId(t, r, ROW_DELETED)].value == Bool(true)
    ensures r !in ListedRows(m, t)
  {
  }

  function RowValues(m: CellMap, t: string, r: string): map<string, Value> {
    map id | id in m && id.table == t && id.row == r && VisibleCell(m, id) :: id.col := m[id].value
  }

  function RowRank(v: Values, t: string, r: string): Rank {
    var id := CellId(t, r, ROW_ORDER);
    if id in v && v[id].Str? then ["0", v[id].s, r] else ["1", r]
  }

  /** Rows in display order: keyed rows first by key, then the others, ties by id. */
  ghost function RawRows(m: CellMap, t: string): seq<Row> {
    var rank := map r | r in ListedRows(m, t) :: RowRank(ValuesOf(m), t, r);
    var ids := SortBy(ListedRows(m, t), rank);
    seq(|ids|, i requires 0 <= i < |ids| => Row(ids[i], RowValues(m, t, ids[i])))
  }

  // ---- select defaults ----

  predicate ValueIsEmpty(x: Value) {
    x == Null || x == Str("")
  }

  const COLUMN_TYPES: set<string> := {
    "text", "number", "boolean", "date", "select", "multiselect", "reference",
    "multireference", "document", "json", "member", "multimember", "formula"
  }

  predicate ParsesAsColumn(v: Values, row: string) {
    var name, ty := CellId(SCHEMA, row, "name"), CellId(SCHEMA, row, "type");
    name in v && v[name].Str? && ty in v && v[ty].Str? && v[ty].s in COLUMN_TYPES
  }

  /** The default an empty cell of a live select column reads as. */
  function SelectDefault(v: Values, t: string, col: string): Option<Value> {
    var name := CellId(TABLES, t, "name");
    var live := set r | r in ColumnRows(v, t, col) && ParsesAsColumn(v, r)
                        && !Is(v, CellId(SCHEMA, r, "deleted"), Bool(true));
    if TableDeleted(v, t) || name !in v || live == {} then None
    else
      var r := Greatest(live);
      var d := CellId(SCHEMA, r, "default");
      if Is(v, CellId(SCHEMA, r, "type"), Str("select")) && d in v && !ValueIsEmpty(v[d])
      then Some(v[d]) else None
  }

  /** What a displayed row reads in a column: its value, or the column's default. */
  function ReadWithDefault(values: map<string, Value>, default: Option<Value>, col: string): Option<Value> {
    if col in values && !ValueIsEmpty(values[col]) then Some(values[col])
    else if default.Some? then default
    else if col in values then Some(values[col]) else None
  }

  function ReadCell(m: CellMap, t: string, r: string, col: string): Option<Value> {
    ReadWithDefault(RowValues(m, t, r), SelectDefault(ValuesOf(m), t, col), col)
  }

  /** Two states with the same values whose rows list and cell visibility agree show the
      same rows. */
  lemma SameRows(m: CellMap, n: CellMap, t: string)
    requires ValuesOf(m) == ValuesOf(n)
    requires forall id :: id in m && id.table == t ==> (VisibleCell(m, id) <==> VisibleCell(n, id))
    requires forall r :: Listed(m, t, r) <==> Listed(n, t, r)
    ensures RawRows(m, t) == RawRows(n, t)
  {
    assert m.Keys == ValuesOf(m).Keys == ValuesOf(n).Keys == n.Keys;
    assert ListedRows(m, t) == ListedRows(n, t);
    forall r ensures RowValues(m, t, r) == RowValues(n, t, r) {
      forall id | id in m ensures m[id].value == n[id].value {
        assert ValuesOf(m)[id] == ValuesOf(n)[id];
      }
    }
  }

  // ---- what the cutoffs depend on ----

  /** Cells the deletion cutoffs are read from. */
  predicate MarksCutoff(id: CellId) {
    || (KindOf(id.table) == SchemaTable && (id.col == "table_id" || id.col == "column_id" || id.col == "deleted_at"))
    || (KindOf(id.table) == RegistryTable && id.col == "deleted_at")
  }

  ghost predicate SameMarks(v: Values, w: Values) {
    forall id: CellId :: MarksCutoff(id) ==> (id in v <==> id in w) && (id in v ==> v[id] == w[id])
  }

  lemma ColumnRowsFromMarks(v: Values, w: Values, t: string, col: string)
    requires SameMarks(v, w)
    ensures ColumnRows(v, t, col) == ColumnRows(w, t, col)
  {
  }

  lemma CutoffsFromMarks(v: Values, w: Values, t: string, col: string)
    requires SameMarks(v, w)
    ensures ColumnCutoff(v, t, col) == ColumnCutoff(w, t, col)
    ensures TableFloor(v, t) == TableFloor(w, t)
  {
    ColumnRowsFromMarks(v, w, t, col);
    var rows := ColumnRows(v, t, col);
    forall r ensures DeletedAt(v, r) == DeletedAt(w, r) {
      assert MarksCutoff(CellId(SCHEMA, r, "deleted_at"));
    }
    assert (set r | r in rows && DeletedAt(v, r).Some?) == (set r | r in rows && DeletedAt(w, r).Some?);
    assert MarksCutoff(CellId(TABLES, t, "deleted_at"));
  }

  lemma StaleFromMarks(v: Values, w: Values, id: CellId, ts: Timestamp)
    requires SameMarks(v, w)
    ensures Stale(v, id, ts) <==> Stale(w, id, ts)
  {
    CutoffsFromMarks(v, w, id.table, id.col);
  }
}
