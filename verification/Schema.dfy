/** The updates that schema operations fan out from one clock reading. */
module Schema {
  import opened Cells
  import opened Reads

  // Each operation stamps its cells `ts`, `ts + 1`, ...; what matters later is which cells it
  // writes, that no cell is written twice, and how far past `ts` the stamps reach.

  datatype Column = Column(id: string, name: string, kind: string, required: bool, default: Option<Value>,
                           options: Option<Value>, referenceTable: Option<Value>, referenceDisplay: Option<Value>,
                           formula: Option<Value>, width: Option<Value>, order: Option<int>)

  /** A table definition; its columns are listed by ascending id. */
  datatype Table = Table(id: string, name: string, description: Option<Value>, columns: seq<Column>)

  /** A change to a column: each present field rewrites one schema cell. */
  datatype Patch = Patch(name: Option<Value>, kind: Option<Value>, options: Option<Value>, default: Option<Value>,
                         referenceTable: Option<Value>, referenceDisplay: Option<Value>, formula: Option<Value>,
                         width: Option<Value>)

  function ColumnRow(table: string, column: string): string {
    table + "." + column
  }

  lemma SameColumnRow(t: string, a: string, b: string)
    ensures ColumnRow(t, a) == ColumnRow(t, b) <==> a == b
  {
    assert ColumnRow(t, a)[|t| + 1..] == a && ColumnRow(t, b)[|t| + 1..] == b;
  }

  /** A cell to write, if it has a value, and how far past the clock reading it is stamped. */
  datatype Field = Field(cell: string, value: Option<Value>, offset: nat)

  const COLUMN_SPAN: nat := 10

  function FieldUpdates(row: string, fields: seq<Field>, ts: Timestamp): (us: seq<Update>)
    requires ts + COLUMN_SPAN <= U64_MAX && forall f :: f in fields ==> f.offset < COLUMN_SPAN
    ensures forall u :: u in us ==>
      u.id.table == SCHEMA && u.id.row == row && ts <= u.cell.ts < ts + COLUMN_SPAN && u.cell.server == None
  {
    if fields == [] then []
    else
      var f := fields[0];
      (if f.value.Some? then [LocalUpdate(CellId(SCHEMA, row, f.cell), f.value.value, ts + f.offset)] else [])
      + FieldUpdates(row, fields[1..], ts)
  }

  function NewFields(table: string, c: Column, idx: nat): (fields: seq<Field>)
    ensures forall f :: f in fields ==> f.offset < COLUMN_SPAN
  {
    [Field("table_id", Some(Str(table)), 0), Field("column_id", Some(Str(c.id)), 1),
     Field("name", Some(Str(c.name)), 2),
     Field("type", Some(Str(c.kind)), 3), Field("required", Some(Bool(c.required)), 4), Field("default", c.default, 5),
     Field("options", c.options, 6), Field("reference_table", c.referenceTable, 7),
     Field("reference_display_column", c.referenceDisplay, 8), Field("formula", c.formula, 9),
     Field("width", c.width, 9),
     Field("order", Some(Num(if c.order.Some? then c.order.value else idx)), 8)]
  }

  /** The cells of one column of a new table, `idx`-th by id. */
  function NewColumn(table: string, c: Column, idx: nat, ts: Timestamp): seq<Update>
    requires ts + COLUMN_SPAN <= U64_MAX
  {
    FieldUpdates(ColumnRow(table, c.id), NewFields(table, c, idx), ts)
  }

  function NewColumns(table: string, cs: seq<Column>, ts: Timestamp): seq<Update>
    requires ts + COLUMN_SPAN * |cs| <= U64_MAX
  {
    if cs == [] then []
    else
      var n := |cs| - 1;
      NewColumns(table, cs[..n], ts) + NewColumn(table, cs[n], n, ts + COLUMN_SPAN * n)
  }

  function CreateTableUpdates(def: Table, ts: Timestamp): seq<Update>
    requires ts + 2 + COLUMN_SPAN * |def.columns| <= U64_MAX
  {
    [LocalUpdate(CellId(TABLES, def.id, "name"), Str(def.name), ts),
     LocalUpdate(CellId(TABLES, def.id, "deleted"), Bool(false), ts)]
    + (if def.description.Some?
       then [LocalUpdate(CellId(TABLES, def.id, "description"), def.description.value, ts + 1)] else [])
    + NewColumns(def.id, def.columns, ts + 2)
  }

  /** The cells of an added column; re-adding a deleted id also clears its tombstone. */
  function AddFields(table: string, c: Column, order: int): (fields: seq<Field>)
    ensures forall f :: f in fields ==> f.offset < COLUMN_SPAN
  {
    [Field("table_id", Some(Str(table)), 0), Field("column_id", Some(Str(c.id)), 1),
     Field("name", Some(Str(c.name)), 2),
     Field("type", Some(Str(c.kind)), 3), Field("required", Some(Bool(c.required)), 4), Field("options", c.options, 5),
     Field("default", c.default, if c.options.Some? then 6 else 5), Field("order", Some(Num(order)), 8),
     Field("deleted", Some(Bool(false)), 9)]
  }

  const I64_MIN: int := -0x8000_0000_0000_0000
  const I64_MAX: int := 0x7FFF_FFFF_FFFF_FFFF

  /** The display positions held in the schema rows of table `t`, and in row `own`. */
  function OrdersOf(v: Values, t: string, own: string): set<int> {
    set id | id in v && id == CellId(SCHEMA, id.row, "order") && v[id].Num? && I64_MIN <= v[id].n <= I64_MAX
        && (id.row == own || Is(v, CellId(SCHEMA, id.row, "table_id"), Str(t))) :: v[id].n
  }

  /** One past the largest position, or 0 if there is none. */
  ghost predicate IsNextOrder(orders: set<int>, next: int) {
    && (orders == {} ==> next == 0) && (orders != {} ==> next - 1 in orders)
    && forall n :: n in orders ==> n < next
  }

  method NextColumnOrder(v: Values, t: string, own: string) returns (next: int)
    ensures IsNextOrder(OrdersOf(v, t, own), next)
  {
    var rest := OrdersOf(v, t, own);
    ghost var done: set<int> := {};
    var most: Option<int> := None;
    while rest != {}
      invariant done + rest == OrdersOf(v, t, own) && (most.None? <==> done == {})
      invariant IsNextOrder(done, if most.Some? then most.value + 1 else 0)
    {
      var n :| n in rest;
      most := Some(if most.Some? && most.value > n then most.value else n);
      rest, done := rest - {n}, done + {n};
    }
    assert done == OrdersOf(v, t, own);
    next := if most.Some? then most.value + 1 else 0;
  }

  function AddColumnUpdates(table: string, c: Column, order: int, ts: Timestamp): seq<Update>
    requires ts + COLUMN_SPAN <= U64_MAX
  {
    FieldUpdates(ColumnRow(table, c.id), AddFields(table, c, order), ts)
  }

  function ReorderUpdates(table: string, cols: seq<string>, ts: Timestamp): seq<Update>
    requires ts + |cols| <= U64_MAX
  {
    if cols == [] then []
    else
      var n := |cols| - 1;
      ReorderUpdates(table, cols[..n], ts)
      + [LocalUpdate(CellId(SCHEMA, ColumnRow(table, cols[n]), "order"), Num(n), ts + n)]
  }

  /** The cells a patch writes are stamped one after the other. */
  function PatchUpdates(row: string, fields: seq<(string, Option<Value>)>, ts: Timestamp): (us: seq<Update>)
    requires ts + |fields| <= U64_MAX
    ensures |us| <= |fields|
    ensures forall i :: 0 <= i < |us| ==> us[i].cell.ts == ts + i && us[i].id.table == SCHEMA && us[i].id.row == row
    ensures forall u :: u in us ==> u.cell.server == None
  {
    if fields == [] then []
    else if fields[0].1.Some? then
      [LocalUpdate(CellId(SCHEMA, row, fields[0].0), fields[0].1.value, ts)] + PatchUpdates(row, fields[1..], ts + 1)
    else PatchUpdates(row, fields[1..], ts)
  }

  function PatchFields(p: Patch): seq<(string, Option<Value>)> {
    [("name", p.name), ("type", p.kind), ("options", p.options), ("default", p.default),
     ("reference_table", p.referenceTable), ("reference_display_column", p.referenceDisplay),
     ("formula", p.formula), ("width", p.width)]
  }

  function UpdateColumnUpdates(table: string, col: string, p: Patch, ts: Timestamp): seq<Update>
    requires ts + COLUMN_SPAN <= U64_MAX
  {
    PatchUpdates(ColumnRow(table, col), PatchFields(p), ts)
  }

  function DeleteColumnUpdates(table: string, col: string, ts: Timestamp): seq<Update> {
    var row := ColumnRow(table, col);
    [LocalUpdate(CellId(SCHEMA, row, "deleted"), Bool(true), ts),
     LocalUpdate(CellId(SCHEMA, row, "deleted_at"), Num(ts), ts)]
  }

  function DeleteTableUpdates(table: string, ts: Timestamp): seq<Update> {
    [LocalUpdate(CellId(TABLES, table, "deleted"), Bool(true), ts),
     LocalUpdate(CellId(TABLES, table, "deleted_at"), Num(ts), ts)]
  }

  // ---- what every fan-out is ----

  /** Local schema updates stamped from `ts` on; registry rows only for table `t`. */
  ghost predicate IsFanOut(us: seq<Update>, t: string, ts: Timestamp) {
    forall u :: u in us ==>
      && ts <= u.cell.ts && u.cell.server == None
      && (KindOf(u.id.table) == SchemaTable || (u.id.table == TABLES && u.id.row == t))
  }

  lemma {:induction false} NewColumnsFanOut(table: string, cs: seq<Column>, ts: Timestamp)
    requires ts + COLUMN_SPAN * |cs| <= U64_MAX
    ensures IsFanOut(NewColumns(table, cs, ts), table, ts)
  {
    if cs != [] {
      NewColumnsFanOut(table, cs[..|cs| - 1], ts);
    }
  }

  lemma CreateTableFansOut(def: Table, ts: Timestamp)
    requires ts + 2 + COLUMN_SPAN * |def.columns| <= U64_MAX
    ensures IsFanOut(CreateTableUpdates(def, ts), def.id, ts)
  {
    NewColumnsFanOut(def.id, def.columns, ts + 2);
  }

  lemma {:induction false} ReorderFansOut(table: string, cols: seq<string>, ts: Timestamp)
    requires ts + |cols| <= U64_MAX
    ensures IsFanOut(ReorderUpdates(table, cols, ts), table, ts)
    ensures |ReorderUpdates(table, cols, ts)| == |cols|
    ensures forall i :: 0 <= i < |cols| ==>
      ReorderUpdates(table, cols, ts)[i] ==
      LocalUpdate(CellId(SCHEMA, ColumnRow(table, cols[i]), "order"), Num(i), ts + i)
  {
    if cols != [] {
      ReorderFansOut(table, cols[..|cols| - 1], ts);
    }
  }
}
