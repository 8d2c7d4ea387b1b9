/** The workspace object: tables, system managers and the hybrid logical clock, updated in
    place.  Each operation is tied to what it does to the one map of cells, and the clock
    stays past every timestamp held, so that local writes win. */
module Workspaces {
  import opened Cells
  import opened Reads
  import opened States
  import opened Compaction
  import opened Stores
  import opened Selection
  import opened Schema
  import opened History
  import opened Defaults
  import opened Effects

  class Workspace {
    var tables: map<string, CellMap>
    var schema: CellMap
    var registry: CellMap
    var views: CellMap
    var history: CellMap
    var clock: Timestamp

    function Parts(): Stores
      reads this
    {
      Stores(tables, schema, registry, views, history)
    }

    function Model(): State
      reads this
    {
      Whole(Parts(), clock)
    }

    /** Every cell sits in its own table's store, and the clock covers every timestamp. */
    ghost predicate Valid()
      reads this
    {
      Sorted(Parts()) && Consistent(Model())
    }

    constructor ()
      ensures Valid() && Model() == EMPTY
    {
      tables, schema, registry, views, history, clock := map[], map[], map[], map[], map[], 0;
    }

    /** Draw a stamp for a local write. */
    method NextTimestamp(now: Timestamp) returns (ts: Timestamp)
      modifies this`clock
      ensures clock == ts == States.NextTimestamp(old(clock), now)
    {
      ts := Max(if clock < U64_MAX then clock + 1 else U64_MAX, now);
      clock := ts;
    }

    method ObserveTimestamp(ts: Timestamp)
      modifies this`clock
      ensures clock == Max(old(clock), ts)
    {
      clock := Max(clock, ts);
    }

    /** Reserve the stamps a multi-cell operation has handed out. */
    method ObserveUpdates(us: seq<Update>)
      modifies this`clock
      ensures old(clock) <= clock && forall u :: u in us ==> u.cell.ts <= clock
      ensures clock == old(clock) || exists u :: u in us && u.cell.ts == clock
    {
      for i := 0 to |us|
        invariant old(clock) <= clock && forall u :: u in us[..i] ==> u.cell.ts <= clock
        invariant clock == old(clock) || exists u :: u in us && u.cell.ts == clock
      {
        assert us[..i + 1] == us[..i] + [us[i]];
        ObserveTimestamp(us[i].cell.ts);
      }
      assert us[..|us|] == us;
    }

    /** Put an update where it is routed. */
    method Deliver(u: Update)
      modifies this
      ensures Parts() == Route(old(Parts()), u)
      ensures clock == Max(old(clock), u.cell.ts)
    {
      ObserveTimestamp(u.cell.ts);
      var t := u.id.table;
      if t in tables {
        tables := tables[t := Put(tables[t], u)];
      } else if t == TABLES || t == SCHEMA {
        if t == TABLES {
          tables := tables[u.id.row := if u.id.row in tables then tables[u.id.row] else map[]];
          registry := Put(registry, u);
        } else {
          schema := Put(schema, u);
        }
      } else if t == VIEWS {
        views := Put(views, u);
      } else if t == HISTORY {
        history := Put(history, u);
      } else {
        tables := tables[t := Put(map[], u)];
      }
    }

    /** Apply an update from the network or from this device: any at all.  The workspace
        stays in order under well-formed ones, and these are merged. */
    method ApplyUpdate(u: Update)
      modifies this
      ensures Parts() == Route(old(Parts()), u) && clock == Max(old(clock), u.cell.ts)
      ensures old(Valid()) && WellFormed(u) ==> Valid() && Model() == Apply(old(Model()), u)
    {
      if Sorted(Parts()) && Consistent(Model()) && WellFormed(u) {
        RoutedApplies(Parts(), u, clock);
        AppliedStaysConsistent(Model(), u);
      }
      Deliver(u);
    }

    /** Apply updates one by one, as a replay, a snapshot load and a write all do. */
    method ApplyEach(us: seq<Update>)
      modifies this
      ensures Parts() == RouteAll(old(Parts()), us) && clock == Latest(old(clock), us)
      ensures old(Valid()) && (forall u :: u in us ==> WellFormed(u))
        ==> Valid() && Model() == ApplyAll(old(Model()), us)
    {
      ghost var good := Valid() && forall u :: u in us ==> WellFormed(u);
      for i := 0 to |us|
        invariant Parts() == RouteAll(old(Parts()), us[..i]) && clock == Latest(old(clock), us[..i])
        invariant good ==> Valid() && Model() == ApplyAll(old(Model()), us[..i])
      {
        assert us[i] in us;
        assert us[..i + 1][..i] == us[..i];
        ApplyUpdate(us[i]);
      }
      assert us[..|us|] == us;
    }

    /** Write one cell without compaction.  The stamp is drawn even when the table is unknown. */
    method UpdateCellReturning(id: CellId, value: Value, now: Timestamp) returns (r: Result<Update>)
      requires Valid()
      modifies this
      ensures Valid()
      ensures clock == States.NextTimestamp(old(clock), now)
      ensures id.table !in old(tables) ==> r == TableNotFound && Parts() == old(Parts())
      ensures id.table in old(tables) ==>
        && r == Ok(LocalUpdate(id, value, clock))
        && Model() == Apply(old(Model()).(clock := clock), r.value)
        && (old(clock) < U64_MAX ==> Model().cells == old(Model().cells)[id := r.value.cell])
    {
      ghost var s := Model();
      var ts := NextTimestamp(now);
      LaterClockConsistent(s, ts);
      var u := LocalUpdate(id, value, ts);
      if id.table in tables {
        TablePutApplies(Parts(), u, clock);
        AppliedStaysConsistent(Model(), u);
        if s.clock < U64_MAX { FreshWins(s, u); }
        tables := tables[id.table := Put(tables[id.table], u)];
        r := Ok(u);
      } else {
        r := TableNotFound;
      }
    }

    /** The `n` stalest live cells of the data tables, table by table. */
    method CollectShortlists(marks: Values, n: nat) returns (merged: seq<Candidate>, ghost pool: set<CellId>)
      requires Valid() && marks == ValuesOf(schema + registry)
      ensures Shortlist(Flat(Parts()), pool, n, merged) && Ids(merged) <= pool
      ensures forall id :: id in pool <==> id in Flat(Parts()) && id.table in tables
    {
      hide Flat;
      ghost var m := Flat(Parts());
      merged, pool := [], {};
      var rest := tables.Keys;
      while rest != {}
        invariant rest <= tables.Keys
        invariant Shortlist(m, pool, n, merged) && Ids(merged) <= pool
        invariant forall id :: id in pool <==> id in m && id.table in tables.Keys - rest
      {
        var t :| t in rest;
        var top, all := StalestOfTable(tables[t], marks, n);
        TableShortlist(Parts(), t, n, all);
        ShortlistsConcat(m, pool, tables[t].Keys, n, merged, top);
        IdsConcat(merged, top);
        PoolGrows(Parts(), pool, rest, t);
        merged := merged + top;
        pool := pool + tables[t].Keys;
        rest := rest - {t};
      }
    }

    /** The `n` stalest live cells of the whole workspace, from the shortlist of each table
        and every cell of the system managers. */
    method SelectGlobalBumpCandidates(n: nat) returns (cs: seq<Candidate>)
      requires Valid()
      ensures AreStalest(Flat(Parts()), n, cs)
    {
      ghost var m := Flat(Parts());
      var merged;
      ghost var pool;
      merged, pool := CollectShortlists(ValuesOf(schema + registry), n);
      var s1 := ExportCandidates(schema);
      var s2 := ExportCandidates(registry);
      var s3 := ExportCandidates(views);
      var s4 := ExportCandidates(history);
      SystemShortlist(Parts(), s1, s2, s3, s4, n);
      var exported := s1 + s2 + s3 + s4;
      EveryCellIsPooled(Parts(), pool, n, exported);
      ShortlistsConcat(m, pool, Ids(exported), n, merged, exported);
      SortedShortlist(m, m.Keys, n, merged + exported);
      SortIsAged(merged + exported);
      TruncatedShortlistIsStalest(m, n, SortByAge(merged + exported));
      cs := Shortest(SortByAge(merged + exported), n);
    }

    /** The bump loop: re-emit candidates other than the user's cell under fresh stamps until
        the byte budget runs out. */
    method EmitBumps(user: Update, candidates: seq<Candidate>, now: Readings, size: Size) returns (us: seq<Update>)
      modifies this`clock
      ensures us == [user] + BumpLoop(candidates, user.id, old(clock), now, 1, BUMP_BYTE_BUDGET, true, size).0
      ensures clock == BumpLoop(candidates, user.id, old(clock), now, 1, BUMP_BYTE_BUDGET, true, size).1
    {
      us := [user];
      ghost var total := BumpLoop(candidates, user.id, clock, now, 1, BUMP_BYTE_BUDGET, true, size);
      var budget: nat, call: nat := BUMP_BYTE_BUDGET, 1;
      assert candidates[0..] == candidates;
      for i := 0 to |candidates|
        invariant |us| >= 1
        invariant [user] + total.0 ==
          us + BumpLoop(candidates[i..], user.id, clock, now, call, budget, |us| == 1, size).0
        invariant total.1 == BumpLoop(candidates[i..], user.id, clock, now, call, budget, |us| == 1, size).1
      {
        var c := candidates[i];
        assert candidates[i..][1..] == candidates[i + 1..];
        if c.id == user.id { continue; }
        var stamp := NextTimestamp(now(call));
        call := call + 1;
        var bump := LocalUpdate(c.id, c.value, stamp);
        var bytes := size(bump);
        if bytes > MAX_BUMPABLE_CELL_BYTES {
          if |us| == 1 && bytes <= MAX_SOLO_BUMP_BYTES {
            us := us + [bump];
          }
          return;
        }
        if bytes > budget {
          return;
        }
        budget := budget - bytes;
        us := us + [bump];
      }
    }

    /** Write one cell with compaction: the table must be known, the batch is applied by the
        routing every update takes, and the effect is that of the specification. */
    method UpdateCellWithBump(id: CellId, value: Value, now: Readings, size: Size)
      returns (r: Result<seq<Update>>, ghost w: Write)
      requires Valid()
      modifies this
      ensures Valid()
      ensures id.table !in old(tables) ==> r == TableNotFound && Parts() == old(Parts()) && clock == old(clock)
      ensures id.table in old(tables) ==>
        && w == Write(id, value, w.cands, now) && AreStalest(old(Model().cells), BUMP_CELLS_PER_WRITE, w.cands)
        && r == Ok(Batch(old(Model()), w, size))
        && Model() == AfterWrite(old(Model()), w, size)
    {
      if id.table !in tables {
        w := Write(id, value, [], now);
        return TableNotFound, w;
      }
      ghost var s := Model();
      var ts := NextTimestamp(now(0));
      LaterClockConsistent(s, ts);
      var candidates := SelectGlobalBumpCandidates(BUMP_CELLS_PER_WRITE);
      w := Write(id, value, candidates, now);
      var us := EmitBumps(LocalUpdate(id, value, ts), candidates, now, size);
      BatchIsWellFormed(s, w, size);
      LaterClockConsistent(s, clock);
      ApplyEach(us);
      r := Ok(us);
    }

    /** Hide a row behind a tombstone; its cells stay. */
    method DeleteRow(table: string, row: string, now: Timestamp) returns (r: Result<Update>)
      requires Valid()
      modifies this
      ensures Valid()
      ensures table !in old(tables) ==> r == TableNotFound && Parts() == old(Parts()) && clock == old(clock)
      ensures table in old(tables) ==>
        && clock == States.NextTimestamp(old(clock), now)
        && r == Ok(LocalUpdate(CellId(table, row, ROW_DELETED), Bool(true), clock))
        && Model() == Apply(old(Model()).(clock := clock), r.value)
        && (old(clock) < U64_MAX ==> row !in ListedRows(Model().cells, table))
    {
      hide ListedRows, Listed, Flat, Sorted, Consistent;
      if table !in tables {
        return TableNotFound;
      }
      r := UpdateCellReturning(CellId(table, row, ROW_DELETED), Bool(true), now);
      if clock > old(clock) { TombstoneUnlists(Model().cells, table, row); }
    }

    /** Every winning cell, for a snapshot. */
    method ExportCells() returns (cells: seq<Update>)
      requires Valid()
      ensures ListsExactly(cells, Model().cells)
    {
      cells := [];
      var rest := tables.Keys;
      while rest != {}
        invariant rest <= tables.Keys
        invariant forall u :: u in cells <==>
                    u.id in Flat(Parts()) && u.cell == Flat(Parts())[u.id] && u.id.table in tables.Keys - rest
      {
        var t :| t in rest;
        var own := ListCells(tables[t]);
        TableKeys(Parts(), t);
        forall u ensures u in own <==> u.id in Flat(Parts()) && u.cell == Flat(Parts())[u.id] && u.id.table == t {
          FlatHolds(Parts(), u.id);
        }
        cells := cells + own;
        rest := rest - {t};
      }
      var s1 := ListCells(schema);
      var s2 := ListCells(registry);
      var s3 := ListCells(views);
      var s4 := ListCells(history);
      forall u ensures u in cells + s1 + s2 + s3 + s4 <==> u.id in Flat(Parts()) && u.cell == Flat(Parts())[u.id] {
        ExportedOnce(Parts(), u);
      }
      cells := cells + s1 + s2 + s3 + s4;
    }

    /** Load a snapshot: replay its cells and honor its clock. */
    method LoadCells(cells: seq<Update>, counter: Timestamp)
      modifies this
      ensures Parts() == RouteAll(old(Parts()), cells) && clock == Max(Latest(old(clock), cells), counter)
      ensures old(Valid()) && (forall u :: u in cells ==> WellFormed(u)) ==>
        Valid() && Model() == Loaded(old(Model()), cells, counter)
    {
      ApplyEach(cells);
      if Sorted(Parts()) && Consistent(Model()) { LaterClockConsistent(Model(), Max(clock, counter)); }
      clock := Max(clock, counter);
    }

    /** Let the system managers merge updates of their own. */
    method ApplyToManagers(us: seq<Update>)
      requires Sorted(Parts()) && forall u :: u in us ==> IsSystem(u.id.table)
      modifies this
      ensures Sorted(Parts()) && Flat(Parts()) == PutAll(old(Flat(Parts())), us)
      ensures Parts() == ManageAll(old(Parts()), us) && tables == old(tables) && clock == old(clock)
    {
      for i := 0 to |us|
        invariant Sorted(Parts()) && Flat(Parts()) == PutAll(old(Flat(Parts())), us[..i])
        invariant Parts() == ManageAll(old(Parts()), us[..i]) && tables == old(tables) && clock == old(clock)
      {
        assert us[i] in us;
        assert us[..i + 1][..i] == us[..i];
        Manage1(us[i]);
      }
      assert us[..|us|] == us;
    }

    method Manage1(u: Update)
      requires Sorted(Parts()) && IsSystem(u.id.table)
      modifies this
      ensures Sorted(Parts()) && Flat(Parts()) == Put(old(Flat(Parts())), u)
      ensures Parts() == Manage(old(Parts()), u) && tables == old(tables) && clock == old(clock)
    {
      ManagedMerges(Parts(), u);
      match KindOf(u.id.table) {
        case SchemaTable => schema := Put(schema, u);
        case RegistryTable => registry := Put(registry, u);
        case ViewsTable => views := Put(views, u);
        case HistoryTable => history := Put(history, u);
      }
    }

    /** Add a column, after the others unless it says where.  Its stamps are reserved: the clock moves past all of
        them. */
    method AddColumn(table: string, c: Column, now: Timestamp) returns (r: Result<seq<Update>>, ghost order: int)
      requires Valid() && States.NextTimestamp(clock, now) + COLUMN_SPAN <= U64_MAX
      modifies this
      ensures Valid()
      ensures table !in old(tables) ==> r == TableNotFound && Parts() == old(Parts()) && clock == old(clock)
      ensures table in old(tables) ==>
        && (c.order.Some? ==> order == c.order.value)
        && (c.order.None? ==> IsNextOrder(OrdersOf(old(ValuesOf(schema)), table, ColumnRow(table, c.id)), order))
        && r == Ok(AddColumnUpdates(table, c, order, States.NextTimestamp(old(clock), now)))
        && Model().cells == PutAll(old(Model().cells), r.value) && tables == old(tables)
        && old(clock) < clock && (forall u :: u in r.value ==> u.cell.ts <= clock)
        && (exists u :: u in r.value && u.cell.ts == clock)
    {
      order := 0;
      if table !in tables {
        return TableNotFound, order;
      }
      ghost var s := Model();
      var ts := NextTimestamp(now);
      var place;
      if c.order.Some? {
        place := c.order.value;
      } else {
        place := NextColumnOrder(ValuesOf(schema), table, ColumnRow(table, c.id));
      }
      order := place;
      var us := AddColumnUpdates(table, c, place, ts);
      assert us[0] in us && us[0].cell.ts == ts;
      ApplyToManagers(us);
      ObserveUpdates(us);
      ConsistentAfterFanOut(s, Model(), us);
      r := Ok(us);
    }

    /** Delete a column: mark it, and record when as the cutoff for its cells. */
    method DeleteColumn(table: string, col: string, now: Timestamp) returns (r: Result<seq<Update>>)
      requires Valid()
      modifies this
      ensures Valid()
      ensures table !in old(tables) ==> r == TableNotFound && Parts() == old(Parts()) && clock == old(clock)
      ensures table in old(tables) ==>
        && clock == States.NextTimestamp(old(clock), now)
        && r == Ok(DeleteColumnUpdates(table, col, clock))
        && Model().cells == PutAll(old(Model().cells), r.value) && tables == old(tables)
    {
      if table !in tables {
        return TableNotFound;
      }
      ghost var s := Model();
      var ts := NextTimestamp(now);
      var us := DeleteColumnUpdates(table, col, ts);
      ApplyToManagers(us);
      ConsistentAfterFanOut(s, Model(), us);
      r := Ok(us);
    }

    /** Reorder columns.  Unlike the other fan-outs this one does not reserve its stamps, so
        the clock still covers everything held only if at most one column is listed. */
    method ReorderColumns(table: string, cols: seq<string>, now: Timestamp) returns (r: Result<seq<Update>>)
      requires Valid() && States.NextTimestamp(clock, now) + |cols| <= U64_MAX
      modifies this
      ensures Sorted(Parts())
      ensures table !in old(tables) ==> r == TableNotFound && Parts() == old(Parts()) && clock == old(clock)
      ensures table in old(tables) ==>
        && clock == States.NextTimestamp(old(clock), now)
        && r == Ok(ReorderUpdates(table, cols, clock))
        && Model().cells == PutAll(old(Model().cells), r.value) && tables == old(tables)
        && (Valid() <==> |cols| <= 1)
    {
      if table !in tables {
        return TableNotFound;
      }
      ghost var s := Model();
      var ts := NextTimestamp(now);
      var us := ReorderUpdates(table, cols, ts);
      ReorderFansOut(table, cols, ts);
      ApplyToManagers(us);
      if |cols| <= 1 {
        ConsistentAfterFanOut(s, Model(), us);
      } else {
        ReorderOutrunsTheClock(s, Model(), us, ts);
      }
      r := Ok(us);
    }

    /** Merge a definition's cells, reserve their stamps and start the table out empty. */
    method InstallTable(t: string, us: seq<Update>)
      requires Valid() && forall u :: u in us ==> IsSystem(u.id.table) && CreatedBy(u.id) <= {t}
      modifies this
      ensures Parts() == Emptied(ManageAll(old(Parts()), us), t) && tables.Keys == old(tables.Keys) + {t}
      ensures old(clock) <= clock && forall u :: u in us ==> u.cell.ts <= clock
      ensures clock == old(clock) || exists u :: u in us && u.cell.ts == clock
      ensures Valid() <==> !IsSystem(t)
      ensures Valid() ==> Model().cells == PutAll(WithoutTable(old(Model().cells), t), us)
    {
      hide Sorted, Consistent, Flat, PutAll, ManageAll;
      ghost var before, was := Parts(), clock;
      ApplyToManagers(us);
      ObserveUpdates(us);
      TableInstalled(before, was, Parts(), clock, us, t);
      tables := tables[t := map[]];
    }

    /** Create a table, or re-create a deleted one.  A re-created table's own cells are
        dropped from this device.  Nothing forbids the name of a system table, but such a
        table leaves the workspace out of order: it captures the system table's routing. */
    method CreateTable(def: Table, now: Timestamp) returns (r: Result<seq<Update>>)
      requires Valid() && States.NextTimestamp(clock, now) + 2 + COLUMN_SPAN * |def.columns| <= U64_MAX
      modifies this
      ensures r == TableAlreadyExists <==> old(IdTaken(Model(), def.id))
      ensures r == TableAlreadyExists ==> Valid() && Parts() == old(Parts()) && clock == old(clock)
      ensures r != TableAlreadyExists ==>
        && r == Ok(CreateTableUpdates(def, States.NextTimestamp(old(clock), now)))
        && Parts() == Emptied(ManageAll(old(Parts()), r.value), def.id)
        && tables.Keys == old(tables.Keys) + {def.id}
        && old(clock) < clock && (forall u :: u in r.value ==> u.cell.ts <= clock)
        && (exists u :: u in r.value && u.cell.ts == clock)
        && (Valid() <==> !IsSystem(def.id))
        && (Valid() ==> Model().cells == PutAll(WithoutTable(old(Model().cells), def.id), r.value))
    {
      hide Flat, Sorted, Consistent, PutAll, ManageAll, Emptied;
      RegistryIsFlat(Parts(), clock, def.id);
      if (def.id in tables || Known(registry, def.id)) && !TableDeleted(ValuesOf(registry), def.id) {
        return TableAlreadyExists;
      }
      var ts := NextTimestamp(now);
      LaterClockConsistent(old(Model()), ts);
      var us := CreateTableUpdates(def, ts);
      CreateTableFansOut(def, ts);
      assert us[0].cell.ts == ts;
      InstallTable(def.id, us);
      r := Ok(us);
    }

    method MarkTableDeleted(table: string, now: Timestamp) returns (us: seq<Update>)
      requires Valid() && table in tables
      modifies this
      ensures Valid() && clock == States.NextTimestamp(old(clock), now)
      ensures us == DeleteTableUpdates(table, clock)
      ensures Model().cells == PutAll(old(Model().cells), us) && tables == old(tables)
    {
      ghost var s := Model();
      var ts := NextTimestamp(now);
      us := DeleteTableUpdates(table, ts);
      DeletionMarks(table, ts);
      ApplyToManagers(us);
      ObserveUpdates(us);
      ConsistentAfterFanOut(s, Model(), us);
    }

    /** Delete a table: mark its registry row; its cells stay until they decay. */
    method DeleteTable(table: string, now: Timestamp) returns (r: Result<seq<Update>>)
      requires Valid()
      modifies this
      ensures Valid()
      ensures r == TableNotFound <==> table !in old(tables)
      ensures r == TableNotFound ==> Parts() == old(Parts()) && clock == old(clock)
      ensures r != TableNotFound ==>
        && clock == States.NextTimestamp(old(clock), now)
        && r == Ok(DeleteTableUpdates(table, clock))
        && Model().cells == PutAll(old(Model().cells), r.value) && tables == old(tables)
    {
      if Known(registry, table) { KnownTablesExist(Parts(), clock, table); }
      if table !in tables && !Known(registry, table) {
        return TableNotFound;
      }
      var us := MarkTableDeleted(table, now);
      r := Ok(us);
    }

    /** Undo, within a scope, everything the timeline has not at `target`. */
    method RestoreScope(events: seq<Update>, target: Timestamp, scope: Option<string>) returns (us: seq<Update>)
      requires Valid() && forall u :: u in events ==> WellFormed(u)
      requires clock + CellsConsidered(Flat(Parts()), events, target) <= U64_MAX
      modifies this
      ensures Valid()
      ensures RollsBack(us, old(Flat(Parts())), events, target, scope, old(clock))
      ensures Flat(Parts()) == PutAll(old(Flat(Parts())), us)
      ensures us == [] ==> Parts() == old(Parts()) && clock == old(clock)
      ensures us != [] ==> clock == old(clock) + |us| - 1
      ensures clock <= old(clock) + CellsConsidered(old(Flat(Parts())), events, target)
    {
      us := PlanRollback(Model(), events, target, scope);
      if us != [] {
        ApplyAllFacts(Model(), us);
        ghost var asOf := AsOf(events, target);
        ClockAfterRestores(Model(), us, asOf, ScopedIds(Model().cells, asOf, Scope(scope)));
        ApplyEach(us);
      }
    }

    /** Leave a row in the history: its stamps are drawn from one reading and not reserved. */
    method RecordInHistory(record: RevertRecord, now: Timestamp) returns (us: seq<Update>)
      requires Valid() && States.NextTimestamp(clock, now) + REVERT_SPAN <= U64_MAX
      modifies this
      ensures clock == States.NextTimestamp(old(clock), now) && us == RecordRevert(record, clock)
      ensures Sorted(Parts()) && Flat(Parts()) == PutAll(old(Flat(Parts())), us)
      ensures !ClockCovers(Model())
    {
      ghost var s := Model();
      var ts := NextTimestamp(now);
      us := RecordRevert(record, ts);
      ApplyToManagers(us);
      RecordOutrunsTheClock(s, Model(), record, ts);
    }

    /** Roll a scope back to its state at `target`, then record the revert.  The record's
        stamps are not reserved, so afterwards the clock no longer covers everything held. */
    method BuildRollback(events: seq<Update>, target: Timestamp, scope: Option<string>, record: RevertRecord,
                         now: Readings) returns (us: seq<Update>, ghost restores: seq<Update>)
      requires Valid() && forall u :: u in events ==> WellFormed(u)
      requires States.NextTimestamp(clock, now(0)) + CellsConsidered(Flat(Parts()), events, target) + REVERT_SPAN
        < U64_MAX
      requires now(1) + REVERT_SPAN < U64_MAX
      modifies this
      ensures RollsBack(restores, old(Flat(Parts())), events, target, scope, States.NextTimestamp(old(clock), now(0)))
      ensures restores == [] <==> NothingToRestore(old(Flat(Parts())), events, target, scope)
      ensures restores == [] ==>
        us == [] && Valid() && Parts() == old(Parts()) && clock == States.NextTimestamp(old(clock), now(0))
      ensures restores != [] ==>
        && States.NextTimestamp(old(clock), now(0)) + |restores| - 1 + REVERT_SPAN <= U64_MAX
        && clock == States.NextTimestamp(States.NextTimestamp(old(clock), now(0)) + |restores| - 1, now(1))
        && clock + REVERT_SPAN <= U64_MAX
        && us == restores + RecordRevert(record, clock)
        && Flat(Parts()) == PutAll(PutAll(old(Flat(Parts())), restores), RecordRevert(record, clock))
        && !ClockCovers(Model())
    {
      hide RollsBack, ClockCovers, PutAll, RecordRevert, NothingToRestore;
      var base := NextTimestamp(now(0));
      LaterClockConsistent(old(Model()), base);
      us := RestoreScope(events, target, scope);
      restores := us;
      RestoresNothingIff(us, old(Flat(Parts())), events, target, scope, base);
      if us == [] { return; }
      var row := RecordInHistory(record, now(1));
      us := us + row;
    }

    /** Merge an already stamped update into its data table. */
    method PutCell(u: Update)
      requires Sorted(Parts()) && u.id.table in tables && u.cell.ts <= clock
      modifies this`tables
      ensures Sorted(Parts()) && Flat(Parts()) == Put(old(Flat(Parts())), u)
      ensures tables.Keys == old(tables.Keys)
    {
      TablePutApplies(Parts(), u, clock);
      tables := tables[u.id.table := Put(tables[u.id.table], u)];
    }

    method FillRow(t: string, row: string, col: string, value: Value, now: Timestamp) returns (u: Update)
      requires Sorted(Parts()) && t in tables
      modifies this`tables, this`clock
      ensures Sorted(Parts())
      ensures clock == States.NextTimestamp(old(clock), now) && u == LocalUpdate(CellId(t, row, col), value, clock)
      ensures Flat(Parts()) == Put(old(Flat(Parts())), u) && tables.Keys == old(tables.Keys)
    {
      var ts := NextTimestamp(now);
      u := LocalUpdate(CellId(t, row, col), value, ts);
      PutCell(u);
    }

    /** Write `value` into column `col` of the given rows, each under a stamp of its own. */
    method FillRows(t: string, col: string, rows: seq<string>, value: Value, now: Readings, ghost limit: nat)
      returns (us: seq<Update>)
      requires Sorted(Parts()) && t in tables
      requires clock <= limit && limit + |rows| <= U64_MAX && ReadingsWithin(now, limit)
      modifies this`tables, this`clock
      ensures Sorted(Parts())
      ensures FillsInOrder(us, rows, t, col, value, old(clock), now) && clock == StampBefore(us, |us|, old(clock))
      ensures Flat(Parts()) == PutAll(old(Flat(Parts())), us) && tables.Keys == old(tables.Keys)
      ensures old(clock) <= clock <= limit + |rows|
    {
      us := [];
      ghost var m, low := Flat(Parts()), clock;
      assert m == PutAll(m, us) && FillsInOrder(us, rows[..0], t, col, value, low, now);
      hide PutAll, Put, Flat, FillsInOrder, StampBefore;
      for i := 0 to |rows|
        invariant Sorted(Parts()) && tables.Keys == old(tables.Keys) && low <= clock <= limit + i
        invariant |us| == i && FillsInOrder(us, rows[..i], t, col, value, low, now)
        invariant clock == StampBefore(us, i, low)
        invariant Flat(Parts()) == PutAll(m, us)
      {
        var u := FillRow(t, rows[i], col, value, now(i));
        PutAllOneMore(m, us, u);
        FillsOneMore(us, rows, i, t, col, value, low, now, u);
        us := us + [u];
      }
      assert rows[..|rows|] == rows;
    }

    /** Write the retiring default into every listed row that relies on it. */
    method FillRelying(t: string, col: string, value: Value, now: Readings, ghost limit: nat) returns (us: seq<Update>)
      requires Valid() && t in tables
      requires clock <= limit && ReadingsWithin(now, limit) && limit + |EmptyRows(Flat(Parts()), t, col)| <= U64_MAX
      modifies this`tables, this`clock
      ensures Valid()
      ensures var m := old(Flat(Parts()));
        FillsInOrder(us, InDisplayOrder(m, t, EmptyRows(m, t, col)), t, col, value, old(clock), now)
      ensures clock == StampBefore(us, |us|, old(clock)) && forall u :: u in us ==> u.cell.ts <= clock
      ensures Flat(Parts()) == PutAll(old(Flat(Parts())), us) && tables.Keys == old(tables.Keys)
      ensures old(clock) <= clock <= limit + old(|EmptyRows(Flat(Parts()), t, col)|)
    {
      ghost var s := Model();
      var empty := EmptyRows(Flat(Parts()), t, col);
      var rows := ListRows(Flat(Parts()), t, empty);
      us := FillRows(t, col, rows, value, now, limit);
      FillsInOrderFill(us, s.cells, empty, t, col, value, s.clock, now);
      FillStaysConsistent(s, Model(), empty, t, col, value, us);
    }

    /** Write a patch's schema cells and reserve their stamps. */
    method ApplyPatch(t: string, col: string, p: Patch, now: Timestamp) returns (us: seq<Update>, ghost ts: Timestamp)
      requires Valid() && States.NextTimestamp(clock, now) + COLUMN_SPAN <= U64_MAX
      modifies this
      ensures Valid()
      ensures ts == States.NextTimestamp(old(clock), now) && us == UpdateColumnUpdates(t, col, p, ts)
      ensures Flat(Parts()) == PutAll(old(Flat(Parts())), us) && tables == old(tables)
    {
      ghost var s := Model();
      var stamp := NextTimestamp(now);
      ts := stamp;
      us := UpdateColumnUpdates(t, col, p, stamp);
      PatchMarksNothing(t, col, p, ts);
      ApplyToManagers(us);
      ObserveUpdates(us);
      ConsistentAfterFanOut(s, Model(), us);
    }

    /** Change a column.  When the default of a select column changes, the old one is first
        written into every listed row that was relying on it. */
    method UpdateColumn(t: string, col: string, p: Patch, now: Readings, ghost limit: nat)
      returns (r: Result<seq<Update>>, ghost fill: seq<Update>)
      requires Valid()
      requires clock <= limit && ReadingsWithin(now, limit)
      requires limit + |RelyingRows(Model().cells, t, col, p)| + 1 + COLUMN_SPAN <= U64_MAX
      modifies this
      ensures Valid()
      ensures t !in old(tables) ==> r == TableNotFound && Parts() == old(Parts()) && clock == old(clock)
      ensures t in old(tables) ==>
        && IsColumnUpdate(old(Model()), Model(), t, col, p, now, r, fill)
        && tables.Keys == old(tables.Keys)
    {
      hide Flat, Sorted, Consistent, EmptyRows, FillsInOrder, UpdateColumnUpdates;
      fill := [];
      if t !in tables {
        return TableNotFound, fill;
      }
      ghost var s := Model();
      var d := Retiring(ValuesOf(Flat(Parts())), t, col, p);
      var us: seq<Update> := [];
      if d.Some? {
        us := FillRelying(t, col, d.value, now, limit);
      }
      fill := us;
      var patch;
      ghost var ts;
      patch, ts := ApplyPatch(t, col, p, now(|us|));
      r := Ok(us + patch);
      assert PatchesAfter(s, Model(), t, col, p, r, fill, ts);
    }
  }
}
