/** What is listed, read and kept alive, in terms of the cells held. */
module Shown {
  import opened Cells
  import opened Order
  import opened Reads
  import opened States
  import opened Schema
  import opened Defaults
  import opened Deletion
  import opened Effects

  /** The cell holds this value. */
  predicate Holds(m: CellMap, id: CellId, x: Value) {
    id in m && m[id].value == x
  }

  /** The row of the schema describes column `col` of table `t` and says it was deleted at `at`. */
  ghost predicate Marks(m: CellMap, row: string, t: string, col: string, at: Timestamp) {
    && Holds(m, CellId("_schema", row, "table_id"), Str(t)) && Holds(m, CellId("_schema", row, "column_id"), Str(col))
    && Holds(m, CellId("_schema", row, "deleted_at"), Num(at))
  }

  /** A cutoff: of the schema rows that describe the column and have a deletion time the last
      by name counts. */
  lemma CutoffMeans(m: CellMap, t: string, col: string, ts: Timestamp)
    ensures AtOrBefore(ts, ColumnCutoff(ValuesOf(m), t, col)) <==>
      exists row, at: Timestamp :: Marks(m, row, t, col, at) && ts <= at
        && forall other, x: Timestamp :: Marks(m, other, t, col, x) ==> other == row || Less(other, row)
  {
    var v := ValuesOf(m);
    var marked := set r | r in ColumnRows(v, t, col) && DeletedAt(v, r).Some?;
    forall r ensures r in marked <==> exists at: Timestamp :: Marks(m, r, t, col, at) {
      InColumnRows(v, t, col, r);
      if r in marked { assert Marks(m, r, t, col, DeletedAt(v, r).value); }
    }
    forall r, at: Timestamp | Marks(m, r, t, col, at) ensures r in marked && DeletedAt(v, r) == Some(at) {
      InColumnRows(v, t, col, r);
    }
    if marked != {} {
      var last := Greatest(marked);
      assert Marks(m, last, t, col, DeletedAt(v, last).value);
      forall row | row in marked && forall other, x: Timestamp ::
        Marks(m, other, t, col, x) ==> other == row || Less(other, row)
        ensures row == last
      {
        LessIsStrictTotal(row, last);
      }
    }
  }

  /** A cell of the column written at `ts` does not show any more: the column, or the whole
      table, was deleted then or later. */
  ghost predicate Outdated(m: CellMap, t: string, col: string, ts: Timestamp) {
    || (exists at: Timestamp :: Holds(m, CellId("_tables", t, "deleted_at"), Num(at)) && ts <= at)
    || (exists row, at: Timestamp :: Marks(m, row, t, col, at) && ts <= at
          && forall other, x: Timestamp :: Marks(m, other, t, col, x) ==> other == row || Less(other, row))
  }

  lemma StaleMeans(m: CellMap, id: CellId, ts: Timestamp)
    ensures Stale(ValuesOf(m), id, ts) <==> Outdated(m, id.table, id.col, ts)
  {
    hide ColumnCutoff, Marks;
    CutoffMeans(m, id.table, id.col, ts);
    if at: Timestamp :| Holds(m, CellId("_tables", id.table, "deleted_at"), Num(at)) && ts <= at {
      assert TableFloor(ValuesOf(m), id.table) == Some(at);
    }
    if AtOrBefore(ts, TableFloor(ValuesOf(m), id.table)) {
      var at := TableFloor(ValuesOf(m), id.table).value;
      assert Holds(m, CellId("_tables", id.table, "deleted_at"), Num(at));
    }
  }

  /** What a row reads in a column of its own. */
  lemma OwnValueMeans(m: CellMap, t: string, r: string, col: string, x: Value)
    ensures col in RowValues(m, t, r) && RowValues(m, t, r)[col] == x <==>
      && Holds(m, CellId(t, r, col), x) && col != "_deleted" && col != "_order"
      && !Outdated(m, t, col, m[CellId(t, r, col)].ts)
  {
    hide Stale, Outdated;
    var id := CellId(t, r, col);
    if id in m { StaleMeans(m, id, m[id].ts); }
    assert col in RowValues(m, t, r) <==> VisibleCell(m, id);
  }

  /** Which rows are listed: those with a cell, no tombstone and, once the table has been
      deleted, a cell written since. */
  lemma ListedMeans(m: CellMap, t: string, r: string)
    ensures r in ListedRows(m, t) <==>
      && (exists col :: CellId(t, r, col) in m)
      && !Holds(m, CellId(t, r, "_deleted"), Bool(true))
      && (forall at: Timestamp :: Holds(m, CellId("_tables", t, "deleted_at"), Num(at)) && at > 0 ==>
            exists col :: CellId(t, r, col) in m && m[CellId(t, r, col)].ts > at)
  {
    assert r in ListedRows(m, t) <==> Listed(m, t, r);
    assert (exists id :: id in m && id.table == t && id.row == r) <==> exists col :: CellId(t, r, col) in m by {
      if id :| id in m && id.table == t && id.row == r { assert id == CellId(t, r, id.col); }
    }
    var v := ValuesOf(m);
    if TableFloor(v, t).Some? {
      var at := TableFloor(v, t).value;
      assert Holds(m, CellId("_tables", t, "deleted_at"), Num(at));
      assert (exists id :: id in m && id.table == t && id.row == r && m[id].ts > at) <==>
        exists col :: CellId(t, r, col) in m && m[CellId(t, r, col)].ts > at by {
        if id :| id in m && id.table == t && id.row == r && m[id].ts > at { assert id == CellId(t, r, id.col); }
      }
    }
  }

  /** What compaction keeps alive. */
  lemma BumpableMeans(m: CellMap, id: CellId)
    ensures Bumpable(m, id) <==>
      id in m && (id.table in {"_schema", "_tables", "_views", "_history"} ||
                  ((id.col == "_deleted" || !Holds(m, CellId(id.table, id.row, "_deleted"), Bool(true)))
                   && !Outdated(m, id.table, id.col, m[id].ts)))
  {
    hide Stale, Outdated;
    if id in m { StaleMeans(m, id, m[id].ts); }
  }

  // ---- defaults ----

  /** The schema row describes a live column: it parses and is not marked deleted. */
  ghost predicate LiveColumn(m: CellMap, row: string, t: string, col: string) {
    && Holds(m, CellId("_schema", row, "table_id"), Str(t)) && Holds(m, CellId("_schema", row, "column_id"), Str(col))
    && (exists name :: Holds(m, CellId("_schema", row, "name"), Str(name)))
    && (exists kind :: kind in COLUMN_TYPES && Holds(m, CellId("_schema", row, "type"), Str(kind)))
    && !Holds(m, CellId("_schema", row, "deleted"), Bool(true))
  }

  /** The default of a select column, which must be more than nothing, in a table that is
      registered and not deleted. */
  lemma DefaultMeans(m: CellMap, t: string, col: string, d: Value)
    ensures SelectDefault(ValuesOf(m), t, col) == Some(d) <==>
      && CellId("_tables", t, "name") in m && !Holds(m, CellId("_tables", t, "deleted"), Bool(true))
      && d != Null && d != Str("")
      && exists row :: LiveColumn(m, row, t, col)
           && (forall other :: LiveColumn(m, other, t, col) ==> other == row || Less(other, row))
           && Holds(m, CellId("_schema", row, "type"), Str("select")) && Holds(m, CellId("_schema", row, "default"), d)
  {
    hide ColumnRows, LiveColumn;
    var v := ValuesOf(m);
    var live := set r | r in ColumnRows(v, t, col) && ParsesAsColumn(v, r)
                        && !Is(v, CellId(SCHEMA, r, "deleted"), Bool(true));
    forall r ensures r in live <==> LiveColumn(m, r, t, col) { LiveColumnMeans(m, t, col, r); }
    if live != {} {
      forall row | row in live && forall other :: other in live ==> other == row || Less(other, row)
        ensures row == Greatest(live)
      {
        LessIsStrictTotal(row, Greatest(live));
      }
    }
  }

  lemma LiveColumnMeans(m: CellMap, t: string, col: string, r: string)
    ensures LiveColumn(m, r, t, col) <==>
      && r in ColumnRows(ValuesOf(m), t, col) && ParsesAsColumn(ValuesOf(m), r)
      && !Is(ValuesOf(m), CellId(SCHEMA, r, "deleted"), Bool(true))
  {
    hide ColumnRows;
    var v, name, kind := ValuesOf(m), CellId(SCHEMA, r, "name"), CellId(SCHEMA, r, "type");
    InColumnRows(v, t, col, r);
    if ParsesAsColumn(v, r) {
      assert Holds(m, name, Str(v[name].s)) && Holds(m, kind, Str(v[kind].s));
    }
  }

  /** What is read in a cell: its own value unless that is empty, else the default, else what
      there is. */
  lemma CellReads(m: CellMap, t: string, r: string, col: string, x: Value)
    ensures ReadCell(m, t, r, col) == Some(x) <==>
      var own, d := RowValues(m, t, r), SelectDefault(ValuesOf(m), t, col);
      if col in own && own[col] != Null && own[col] != Str("") then x == own[col]
      else if d.Some? then x == d.value else col in own && x == own[col]
  {
  }

  // ---- order ----

  /** The sort key of a row, if it has one. */
  ghost predicate HasKey(m: CellMap, t: string, r: string, key: string) {
    Holds(m, CellId(t, r, "_order"), Str(key))
  }

  /** Display order: rows with a sort key come first, by key, and the others after them; ties
      and rows without a key go by id. */
  lemma DisplayOrderMeans(m: CellMap, t: string, rows: set<string>, i: nat, j: nat)
    requires i < j < |InDisplayOrder(m, t, rows)|
    ensures var a, b := InDisplayOrder(m, t, rows)[i], InDisplayOrder(m, t, rows)[j];
      && a in rows && b in rows && a != b
      && (forall key :: HasKey(m, t, b, key) ==>
            exists first :: HasKey(m, t, a, first) && (Less(first, key) || (first == key && Less(a, b))))
      && ((forall key :: !HasKey(m, t, a, key)) ==> (forall key :: !HasKey(m, t, b, key)) && Less(a, b))
  {
    hide InDisplayOrder, RowRank, HasKey;
    DisplayOrderLists(m, t, rows);
    var order := InDisplayOrder(m, t, rows);
    assert order[i] in order && order[j] in order;
    RankMeans(m, t, order[i], order[j]);
  }

  /** The table as it is read shows its listed rows in that order, each with its own values. */
  lemma RowsAreInOrder(m: CellMap, t: string, i: nat)
    requires i < |RawRows(m, t)|
    ensures |RawRows(m, t)| == |InDisplayOrder(m, t, ListedRows(m, t))|
    ensures var r := InDisplayOrder(m, t, ListedRows(m, t))[i];
      RawRows(m, t)[i] == Row(r, RowValues(m, t, r))
  {
    hide RowRank, SortBy, ListedRows, RowValues;
    assert RowRanks(ValuesOf(m), t, ListedRows(m, t)) ==
      map r | r in ListedRows(m, t) :: RowRank(ValuesOf(m), t, r);
  }

  lemma RankMeans(m: CellMap, t: string, a: string, b: string)
    requires Order.Before(RowRank(ValuesOf(m), t, a), RowRank(ValuesOf(m), t, b))
    ensures a != b
    ensures forall key :: HasKey(m, t, b, key) ==>
      exists first :: HasKey(m, t, a, first) && (Less(first, key) || (first == key && Less(a, b)))
    ensures (forall key :: !HasKey(m, t, a, key)) ==> (forall key :: !HasKey(m, t, b, key)) && Less(a, b)
  {
    var v, x, y := ValuesOf(m), CellId(t, a, ROW_ORDER), CellId(t, b, ROW_ORDER);
    BeforeIsStrictTotal(RowRank(v, t, a), RowRank(v, t, a));
    if x in v && v[x].Str? { assert HasKey(m, t, a, v[x].s); }
    if y in v && v[y].Str? { assert HasKey(m, t, b, v[y].s); }
    assert !Less("1", "0") && Less("0", "1") && !Less("0", "0") && !Less("1", "1");
    var p, q := RowRank(v, t, a), RowRank(v, t, b);
    assert p[0] == q[0] ==> Order.Before(p[1..], q[1..]);
    assert p[0] == q[0] == "0" ==>
      p[1..][1..] == [a] && q[1..][1..] == [b] && p[1..][0] == v[x].s && q[1..][0] == v[y].s;
    assert p[0] == q[0] == "1" ==> p[1..] == [a] && q[1..] == [b];
    assert Order.Before([a], [b]) ==> Less(a, b) by { assert !Order.Before([], []); }
  }

  // ---- rows that rely on a default ----

  /** A change of a column's default writes the old one into exactly these rows: there was a
      default, the new one differs, and the row is listed with nothing of its own to show. */
  lemma RelyingMeans(m: CellMap, t: string, col: string, p: Patch, r: string)
    ensures r in RelyingRows(m, t, col, p) <==>
      && p.default.Some? && SelectDefault(ValuesOf(m), t, col).Some?
      && SelectDefault(ValuesOf(m), t, col) != p.default
      && r in ListedRows(m, t)
      && (col in RowValues(m, t, r) ==> RowValues(m, t, r)[col] == Null || RowValues(m, t, r)[col] == Str(""))
  {
    hide ListedRows, RowValues, SelectDefault;
  }
}
