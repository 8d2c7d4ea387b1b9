/** When a reader that stopped early shows what the writer shows. */
module Agreement {
  import opened Cells
  import opened Reads

  /** `m` holds every live cell of `live` as it is there, and nothing newer or unknown; of a
      dead cell it may hold an older version, or none. */
  ghost predicate Agrees(live: CellMap, m: CellMap) {
    && (forall id :: Bumpable(live, id) ==> id in m && m[id].value == live[id].value && m[id].ts == live[id].ts)
    && (forall id :: id in m ==> id in live && m[id].ts <= live[id].ts)
  }

  ghost predicate SameSystemCells(v: Values, w: Values) {
    forall id: CellId :: IsSystem(id.table) ==> (id in v <==> id in w) && (id in v ==> v[id] == w[id])
  }

  /** Schemas, views, the registry and the deletion marks are all there. */
  lemma SystemCellsAgree(live: CellMap, m: CellMap)
    requires Agrees(live, m)
    ensures SameSystemCells(ValuesOf(live), ValuesOf(m)) && SameMarks(ValuesOf(live), ValuesOf(m))
  {
    forall id: CellId | IsSystem(id.table) && id in live ensures id in m && m[id].value == live[id].value {
      assert Bumpable(live, id);
    }
  }

  lemma DefaultsFromSystemCells(v: Values, w: Values, t: string, col: string)
    requires SameSystemCells(v, w)
    ensures SelectDefault(v, t, col) == SelectDefault(w, t, col)
  {
    assert IsSystem(TABLES) && IsSystem(SCHEMA);
    assert ColumnRows(v, t, col) == ColumnRows(w, t, col);
    forall r ensures ParsesAsColumn(v, r) <==> ParsesAsColumn(w, r) {
    }
    var live := set r | r in ColumnRows(v, t, col) && ParsesAsColumn(v, r)
      && !Is(v, CellId(SCHEMA, r, "deleted"), Bool(true));
    assert live == set r | r in ColumnRows(w, t, col) && ParsesAsColumn(w, r)
      && !Is(w, CellId(SCHEMA, r, "deleted"), Bool(true));
  }

  /** The row has a live cell, and its tombstone is live if it has one. */
  ghost predicate LiveRow(m: CellMap, t: string, r: string) {
    && (exists id :: Bumpable(m, id) && id.table == t && id.row == r)
    && (CellId(t, r, ROW_DELETED) in m ==> Bumpable(m, CellId(t, r, ROW_DELETED)))
  }

  lemma TombstonesAgree(live: CellMap, m: CellMap, t: string, r: string)
    requires Agrees(live, m) && LiveRow(live, t, r)
    ensures RowDeleted(ValuesOf(live), t, r) <==> RowDeleted(ValuesOf(m), t, r)
  {
    assert CellId(t, r, ROW_DELETED) in m ==> CellId(t, r, ROW_DELETED) in live;
  }

  lemma LiveIsPastTheFloor(live: CellMap, id: CellId)
    requires Bumpable(live, id) && !IsSystem(id.table)
    ensures id in live && !AtOrBefore(live[id].ts, TableFloor(ValuesOf(live), id.table))
  {
  }

  /** Some cell of the row is newer than the table's deletion, if the row needs one to be listed. */
  ghost predicate PastFloor(m: CellMap, t: string, r: string) {
    var floor := TableFloor(ValuesOf(m), t);
    floor.Some? && floor.value > 0 ==> exists id :: id in m && id.table == t && id.row == r && m[id].ts > floor.value
  }

  lemma FloorsAgree(live: CellMap, m: CellMap, t: string, r: string)
    requires Agrees(live, m) && LiveRow(live, t, r)
    ensures PastFloor(live, t, r) <==> PastFloor(m, t, r)
  {
    hide LastMark, ColumnRows, RowDeleted, MarksCutoff;
    SystemCellsAgree(live, m);
    CutoffsFromMarks(ValuesOf(live), ValuesOf(m), t, "");
    var id :| Bumpable(live, id) && id.table == t && id.row == r;
    var floor := TableFloor(ValuesOf(live), t);
    if PastFloor(live, t, r) && floor.Some? && floor.value > 0 {
      var late :| late in live && late.table == t && late.row == r && live[late].ts > floor.value;
      if IsSystem(t) {
        assert Bumpable(live, late) && m[late].ts > floor.value;
      } else {
        LiveIsPastTheFloor(live, id);
        assert m[id].ts > floor.value;
      }
    }
    if PastFloor(m, t, r) && floor.Some? && floor.value > 0 {
      var late :| late in m && late.table == t && late.row == r && m[late].ts > floor.value;
      assert live[late].ts > floor.value;
    }
  }

  lemma ListingAgrees(live: CellMap, m: CellMap, t: string, r: string)
    requires Agrees(live, m) && LiveRow(live, t, r)
    ensures Listed(live, t, r) <==> Listed(m, t, r)
  {
    hide Stale, TableFloor, RowDeleted;
    TombstonesAgree(live, m, t, r);
    FloorsAgree(live, m, t, r);
    var id :| Bumpable(live, id) && id.table == t && id.row == r;
    assert id in live && id in m;
  }

  lemma StaleStaysStale(v: Values, id: CellId, ts: Timestamp, older: Timestamp)
    requires older <= ts && Stale(v, id, ts)
    ensures Stale(v, id, older)
  {
  }

  lemma VisibilityAgrees(live: CellMap, m: CellMap, id: CellId)
    requires Agrees(live, m) && !RowDeleted(ValuesOf(live), id.table, id.row)
    ensures VisibleCell(live, id) <==> VisibleCell(m, id)
    ensures VisibleCell(live, id) ==> m[id].value == live[id].value
  {
    SystemCellsAgree(live, m);
    if id in m {
      StaleFromMarks(ValuesOf(live), ValuesOf(m), id, m[id].ts);
      if Stale(ValuesOf(live), id, live[id].ts) {
        StaleStaysStale(ValuesOf(live), id, live[id].ts, m[id].ts);
      } else {
        assert Bumpable(live, id);
      }
    } else if id in live {
      assert !Bumpable(live, id);
    }
  }

  /** A reader that agrees with the writer shows every live row exactly as the writer does:
      listed or not, and reading the same in every column, defaults included. */
  lemma LiveRowsShowTheSame(live: CellMap, m: CellMap, t: string, r: string)
    requires Agrees(live, m) && LiveRow(live, t, r)
    ensures Listed(live, t, r) <==> Listed(m, t, r)
    ensures Listed(live, t, r) ==> RowValues(live, t, r) == RowValues(m, t, r)
    ensures Listed(live, t, r) ==> forall col :: ReadCell(live, t, r, col) == ReadCell(m, t, r, col)
  {
    ListingAgrees(live, m, t, r);
    SystemCellsAgree(live, m);
    if Listed(live, t, r) {
      forall id: CellId | id.table == t && id.row == r
        ensures VisibleCell(live, id) <==> VisibleCell(m, id)
        ensures VisibleCell(live, id) ==> m[id].value == live[id].value
      {
        VisibilityAgrees(live, m, id);
      }
      assert RowValues(live, t, r) == RowValues(m, t, r);
      forall col ensures ReadCell(live, t, r, col) == ReadCell(m, t, r, col) {
        DefaultsFromSystemCells(ValuesOf(live), ValuesOf(m), t, col);
      }
    }
  }

  // ---- rows that are not live ----

  function WithoutRow(m: CellMap, t: string, r: string): CellMap {
    map id | id in m && !(id.table == t && id.row == r) :: m[id]
  }

  lemma DroppedRow(live: CellMap, t: string, r: string)
    requires !(exists id :: Bumpable(live, id) && id.table == t && id.row == r)
    ensures Agrees(live, WithoutRow(live, t, r)) && !Listed(WithoutRow(live, t, r), t, r)
  {
  }

  lemma OlderTombstone(live: CellMap, t: string, r: string)
    requires CellId(t, r, ROW_DELETED) in live && !Bumpable(live, CellId(t, r, ROW_DELETED))
    ensures var tomb := CellId(t, r, ROW_DELETED);
      var m := live[tomb := Cell(Bool(true), live[tomb].ts, live[tomb].server)];
      Agrees(live, m) && !Listed(m, t, r)
  {
  }

  /** A row of user data that the writer lists is certain to be listed by every reader that
      agrees with the writer exactly if it is a live row: without a live cell the reader may
      have fetched none of it, and past a dead tombstone it may hold an older one. */
  lemma SurelyListedIff(live: CellMap, t: string, r: string)
    requires Listed(live, t, r) && !IsSystem(t)
    ensures (forall m :: Agrees(live, m) ==> Listed(m, t, r)) <==> LiveRow(live, t, r)
  {
    if LiveRow(live, t, r) {
      forall m | Agrees(live, m) ensures Listed(m, t, r) { ListingAgrees(live, m, t, r); }
    } else if exists id :: Bumpable(live, id) && id.table == t && id.row == r {
      OlderTombstone(live, t, r);
    } else {
      DroppedRow(live, t, r);
    }
  }

  /** Rows without a live cell may differ: one whose only cell is past its column's deletion
      is listed, blank, by the writer and not listed by a reader that never fetched it. */
  lemma DeadRowsMayVanish(live: CellMap, id: CellId)
    requires id in live && !IsSystem(id.table) && id.col != ROW_DELETED
    requires AtOrBefore(live[id].ts, ColumnCutoff(ValuesOf(live), id.table, id.col))
    requires TableFloor(ValuesOf(live), id.table) == None
    requires forall k :: k in live && k.table == id.table && k.row == id.row ==> k == id
    ensures Agrees(live, live - {id})
    ensures Listed(live, id.table, id.row) && RowValues(live, id.table, id.row) == map[]
    ensures !Listed(live - {id}, id.table, id.row)
  {
    assert !Bumpable(live, id);
  }
}
