/** What the workspace's operations do to its value: facts the object's methods rest on.

    The object keeps its cells in stores, one per data table and four for the system.  Each
    operation first updates a manager and only then merges the same updates again through
    routing, or fills rows one by one; here each of these is shown to be a merge into the one
    map of cells, together with what becomes of the clock and of the known tables. */
module Effects {
  import opened Cells
  import opened Order
  import opened Reads
  import opened States
  import opened Compaction
  import opened Stores
  import opened Selection
  import opened Schema
  import opened History
  import opened Defaults

  datatype Result<+T> = Ok(value: T) | TableNotFound | TableAlreadyExists

  // ---- facts about the value of a workspace ----

  function Whole(s: Stores, clock: Timestamp): State {
    State(Flat(s), s.tables.Keys, clock)
  }

  lemma RoutedApplies(s: Stores, u: Update, clock: Timestamp)
    requires Sorted(s) && WellFormed(u)
    ensures Sorted(Route(s, u))
    ensures Whole(Route(s, u), Max(clock, u.cell.ts)) == Apply(Whole(s, clock), u)
  {
    RoutingIsTheFlatMerge(s, u);
  }

  lemma AppliedStaysConsistent(s: State, u: Update)
    requires Consistent(s) && WellFormed(u)
    ensures Consistent(Apply(s, u))
  {
    assert [u][..0] == [] && ApplyAll(s, []) == s;
    ApplyAllConsistent(s, [u]);
  }

  lemma ManagedElsewhere(s: Stores, u: Update, t: string)
    requires Sorted(s) && IsSystem(u.id.table) && t != u.id.table
    ensures StoreOf(Manage(s, u), t) == StoreOf(s, t)
  {
    if KindOf(t) == KindOf(u.id.table) { KindsAreNamed(t, u.id.table); }
  }

  lemma ManagedHere(s: Stores, u: Update)
    requires Sorted(s) && IsSystem(u.id.table)
    ensures StoreOf(Manage(s, u), u.id.table) == Put(StoreOf(s, u.id.table), u)
  {
    match KindOf(u.id.table) case RegistryTable => case SchemaTable => case ViewsTable => case HistoryTable =>
  }

  lemma ManagedMerges(s: Stores, u: Update)
    requires Sorted(s) && IsSystem(u.id.table)
    ensures Sorted(Manage(s, u)) && Flat(Manage(s, u)) == Put(Flat(s), u)
  {
    SystemPutStaysSorted(s, u);
    ManagedHere(s, u);
    forall t | t != u.id.table ensures StoreOf(Manage(s, u), t) == StoreOf(s, t) {
      ManagedElsewhere(s, u, t);
    }
    OneStoreMergesIsFlatPut(s, Manage(s, u), u);
  }

  lemma LaterClockConsistent(s: State, clock: Timestamp)
    requires Consistent(s) && s.clock <= clock
    ensures Consistent(s.(clock := clock))
  {
  }

  /** The last stamp of a reorder of two or more columns wins its cell and is past the clock. */
  lemma ReorderOutrunsTheClock(s: State, n: State, us: seq<Update>, ts: Timestamp)
    requires ClockCovers(s) && s.clock < ts && n.clock == ts && n.cells == PutAll(s.cells, us)
    requires |us| > 1 && forall i :: 0 <= i < |us| ==> us[i].cell.ts == ts + i
    ensures !ClockCovers(n)
  {
    var last := us[|us| - 1];
    PutAllKeepsWinner(s.cells, us, last.id);
    assert last == Update(last.id, last.cell) && Offered(s.cells, us, last.id, last.cell);
    WinsOverIsRankOrder(n.cells[last.id], last.cell);
  }

  lemma RestoresAreWellFormed(s: State, events: seq<Update>, target: Timestamp, us: seq<Update>)
    requires Consistent(s) && forall u :: u in events ==> WellFormed(u)
    requires forall u :: u in us ==> u.id in s.cells || u.id in AsOf(events, target)
    ensures forall u :: u in us ==> WellFormed(u)
  {
    forall u | u in us ensures WellFormed(u) {
      if u.id in s.cells {
        assert CreatedBy(u.id) <= s.tables;
      } else {
        AsOfIsMergeOfWindow(events, target);
        PutAllKeepsWinner(map[], Within(events, target), u.id);
        assert Update(u.id, AsOf(events, target)[u.id]) in Within(events, target);
      }
    }
  }

  /** How many cells a rollback looks at, at most. */
  function CellsConsidered(m: CellMap, events: seq<Update>, target: Timestamp): nat {
    |m.Keys + AsOf(events, target).Keys|
  }

  ghost predicate RollsBack(us: seq<Update>, m: CellMap, events: seq<Update>, target: Timestamp,
                            scope: Option<string>, next: Timestamp) {
    Rollback(us, m, AsOf(events, target), ScopedIds(m, AsOf(events, target), Scope(scope)), next)
  }

  /** Every cell in scope has the value it had at the target, or is absent at both or Null. */
  ghost predicate NothingToRestore(m: CellMap, events: seq<Update>, target: Timestamp, scope: Option<string>) {
    forall id :: InScope(scope, id) ==> Restoration(m, AsOf(events, target), id) == None
  }

  lemma RestoresNothingIff(us: seq<Update>, m: CellMap, events: seq<Update>, target: Timestamp, scope: Option<string>,
                           next: Timestamp)
    requires RollsBack(us, m, events, target, scope, next)
    ensures us == [] <==> NothingToRestore(m, events, target, scope)
  {
    var asOf := AsOf(events, target);
    if us != [] {
      assert us[0] in us && us[0].id in ScopedIds(m, asOf, Scope(scope));
    } else {
      forall id | InScope(scope, id) ensures Restoration(m, asOf, id) == None {
        if id in m.Keys + asOf.Keys { assert id in ScopedIds(m, asOf, Scope(scope)); }
      }
    }
  }

  /** After the restoring updates the clock stands at their last stamp. */
  lemma ClockAfterRestores(s: State, us: seq<Update>, asOf: CellMap, ids: set<CellId>)
    requires us != [] && Rollback(us, s.cells, asOf, ids, s.clock)
    ensures ApplyAll(s, us).clock == s.clock + |us| - 1
  {
    ApplyAllFacts(s, us);
    assert us[|us| - 1] in us;
  }

  method PlanRollback(s: State, events: seq<Update>, target: Timestamp, scope: Option<string>) returns (us: seq<Update>)
    requires Consistent(s) && forall u :: u in events ==> WellFormed(u)
    requires s.clock + CellsConsidered(s.cells, events, target) <= U64_MAX
    ensures RollsBack(us, s.cells, events, target, scope, s.clock)
    ensures forall u :: u in us ==> WellFormed(u) && u.cell.ts < s.clock + CellsConsidered(s.cells, events, target)
  {
    var asOf := StateAsOf(events, target);
    us := RollbackUpdates(s.cells, asOf, Scope(scope), s.clock);
    RestoresAreWellFormed(s, events, target, us);
  }

  /** The last cell of a revert's record is stamped past the clock reading it was drawn from. */
  lemma RecordOutrunsTheClock(s: State, n: State, record: RevertRecord, ts: Timestamp)
    requires ClockCovers(s) && s.clock < ts && ts + REVERT_SPAN <= U64_MAX
    requires n.clock == ts && n.cells == PutAll(s.cells, RecordRevert(record, ts))
    ensures !ClockCovers(n)
  {
    var us := RecordRevert(record, ts);
    var u := us[1];
    PutAllKeepsWinner(s.cells, us, u.id);
    assert u in us && u == Update(u.id, u.cell) && Offered(s.cells, us, u.id, u.cell);
    WinsOverIsRankOrder(n.cells[u.id], u.cell);
  }

  lemma ExportedOnce(s: Stores, u: Update)
    requires Sorted(s)
    ensures u.id in Flat(s) && u.cell == Flat(s)[u.id] <==>
      || (u.id in Flat(s) && u.cell == Flat(s)[u.id] && u.id.table in s.tables)
      || (u.id in s.schema && s.schema[u.id] == u.cell)
      || (u.id in s.registry && s.registry[u.id] == u.cell)
      || (u.id in s.views && s.views[u.id] == u.cell)
      || (u.id in s.history && s.history[u.id] == u.cell)
  {
    FlatHolds(s, u.id);
    if u.id in s.schema || u.id in s.registry || u.id in s.views || u.id in s.history {
      ManagedHolds(s, KindOf(u.id.table), u.id);
    }
  }

  /** The cells of one store, as a list. */
  method ListCells(store: CellMap) returns (us: seq<Update>)
    ensures forall u :: u in us <==> u.id in store && u.cell == store[u.id]
  {
    us := [];
    var rest := store.Keys;
    while rest != {}
      invariant rest <= store.Keys
      invariant forall u :: u in us <==> u.id in store && u.cell == store[u.id] && u.id !in rest
    {
      var id :| id in rest;
      us := us + [Update(id, store[id])];
      rest := rest - {id};
    }
  }

  /** The registry holds a live schema for the table. */
  predicate Known(registry: CellMap, t: string) {
    CellId(TABLES, t, "name") in registry && !TableDeleted(ValuesOf(registry), t)
  }

  /** The id belongs to a table that is not deleted: it is among the tables, or registered by
      name, and its registry row is not marked. */
  predicate IdTaken(s: State, t: string) {
    && !Is(ValuesOf(s.cells), CellId(TABLES, t, "deleted"), Bool(true))
    && (t in s.tables || CellId(TABLES, t, "name") in s.cells)
  }

  lemma RegistryIsFlat(s: Stores, clock: Timestamp, t: string)
    requires Sorted(s)
    ensures IdTaken(Whole(s, clock), t) <==>
      (t in s.tables || Known(s.registry, t)) && !TableDeleted(ValuesOf(s.registry), t)
  {
    hide Flat, HoldsOnly, HoldsKind;
    FlatHolds(s, CellId(TABLES, t, "deleted"));
    FlatHolds(s, CellId(TABLES, t, "name"));
  }

  lemma KnownTablesExist(s: Stores, clock: Timestamp, t: string)
    requires Sorted(s) && Consistent(Whole(s, clock)) && Known(s.registry, t)
    ensures t in s.tables
  {
    var id := CellId(TABLES, t, "name");
    FlatHolds(s, id);
    assert CreatedBy(id) == {t};
  }

  lemma DeletionMarks(t: string, ts: Timestamp)
    ensures forall u :: u in DeleteTableUpdates(t, ts) ==>
              IsSystem(u.id.table) && CreatedBy(u.id) == {t} && u.cell.ts == ts
  {
  }

  function WithoutTable(m: CellMap, t: string): CellMap {
    map id | id in m && id.table != t :: m[id]
  }

  function Emptied(s: Stores, t: string): Stores {
    s.(tables := s.tables[t := map[]])
  }

  lemma EmptiedStaysSorted(s: Stores, t: string)
    requires Sorted(s) && !IsSystem(t)
    ensures Sorted(Emptied(s, t))
  {
  }

  lemma EmptiedStore(s: Stores, t: string, u: string)
    ensures StoreOf(Emptied(s, t), u) == if u == t then map[] else StoreOf(s, u)
  {
  }

  lemma EmptiedTableAt(s: Stores, t: string, id: CellId)
    requires Sorted(s) && Sorted(Emptied(s, t))
    ensures AgreeAt(Flat(Emptied(s, t)), WithoutTable(Flat(s), t), id)
  {
    EmptiedStore(s, t, id.table);
    FlatHolds(s, id);
    FlatHolds(Emptied(s, t), id);
  }

  lemma EmptiedTable(s: Stores, t: string)
    requires Sorted(s) && !IsSystem(t)
    ensures Sorted(Emptied(s, t)) && Flat(Emptied(s, t)) == WithoutTable(Flat(s), t)
  {
    EmptiedStaysSorted(s, t);
    forall id ensures AgreeAt(Flat(Emptied(s, t)), WithoutTable(Flat(s), t), id) {
      EmptiedTableAt(s, t, id);
    }
    SameMaps(Flat(Emptied(s, t)), WithoutTable(Flat(s), t));
  }

  lemma {:induction false} SystemPutsPassDrop(m: CellMap, us: seq<Update>, t: string)
    requires forall u :: u in us ==> u.id.table != t
    ensures WithoutTable(PutAll(m, us), t) == PutAll(WithoutTable(m, t), us)
  {
    if us != [] {
      assert us[|us| - 1] in us;
      SystemPutsPassDrop(m, us[..|us| - 1], t);
      SystemPutPassesDrop(PutAll(m, us[..|us| - 1]), us[|us| - 1], t);
    }
  }

  lemma SystemPutPassesDrop(m: CellMap, u: Update, t: string)
    requires u.id.table != t
    ensures WithoutTable(Put(m, u), t) == Put(WithoutTable(m, t), u)
  {
  }

  lemma CreatedStaysConsistent(s: State, n: State, us: seq<Update>, t: string)
    requires Consistent(s) && !IsSystem(t) && s.clock <= n.clock
    requires forall u :: u in us ==> IsSystem(u.id.table) && u.cell.ts <= n.clock && CreatedBy(u.id) <= {t}
    requires n.cells == WithoutTable(PutAll(s.cells, us), t) && n.tables == s.tables + {t}
    ensures Consistent(n) && n.cells == PutAll(WithoutTable(s.cells, t), us)
  {
    SystemPutsPassDrop(s.cells, us, t);
    DroppedStaysConsistent(s, t);
    ConsistentAfterFanOut(s.(cells := WithoutTable(s.cells, t)), n, us);
  }

  lemma DroppedStaysConsistent(s: State, t: string)
    requires Consistent(s)
    ensures Consistent(s.(cells := WithoutTable(s.cells, t)))
  {
  }

  /** Merging straight into a data table's store is routing. */
  lemma TablePutApplies(s: Stores, u: Update, clock: Timestamp)
    requires Sorted(s) && u.id.table in s.tables && u.cell.ts <= clock
    ensures var n := s.(tables := s.tables[u.id.table := Put(s.tables[u.id.table], u)]);
      Sorted(n) && Whole(n, clock) == Apply(Whole(s, clock), u)
  {
    RoutedApplies(s, u, clock);
  }

  /** A fresh stamp wins: the merge holds the update. */
  lemma FreshWins(s: State, u: Update)
    requires ClockCovers(s) && s.clock < u.cell.ts
    ensures Apply(s, u).cells == s.cells[u.id := u.cell]
  {
  }

  lemma {:induction false} BumpClockGrows(cs: seq<Candidate>, user: CellId, clock: Timestamp, now: Readings, call: nat,
                                          budget: nat, alone: bool, size: Size)
    ensures clock <= BumpLoop(cs, user, clock, now, call, budget, alone, size).1
  {
    if cs != [] {
      var ts := States.NextTimestamp(clock, now(call));
      var bump := LocalUpdate(cs[0].id, cs[0].value, ts);
      if cs[0].id == user {
        BumpClockGrows(cs[1..], user, clock, now, call, budget, alone, size);
      } else if size(bump) <= MAX_BUMPABLE_CELL_BYTES && size(bump) <= budget {
        BumpClockGrows(cs[1..], user, ts, now, call + 1, budget - size(bump), false, size);
      }
    }
  }

  lemma BatchIsWellFormed(s: State, w: Write, size: Size)
    requires Consistent(s) && w.id.table in s.tables && AreStalest(s.cells, BUMP_CELLS_PER_WRITE, w.cands)
    ensures forall u :: u in Batch(s, w, size) ==> WellFormed(u)
    ensures s.clock <= Bumps(s, w, size).1
  {
    var first, us := UserUpdate(s, w), Bumps(s, w, size).0;
    BumpClockGrows(w.cands, w.id, first.cell.ts, w.now, 1, BUMP_BYTE_BUDGET, true, size);
    BumpsAreAPrefix(w.cands, w.id, first.cell.ts, w.now, 1, BUMP_BYTE_BUDGET, true, size);
    forall u | u in us ensures WellFormed(u) {
      var i :| 0 <= i < |us| && us[i] == u;
      var c := NonUser(w.cands, w.id)[i];
      assert Carries(us[i], c);
      NonUserKeepsTheOthers(w.cands, w.id, c);
      assert Describes(s.cells, c) && CreatedBy(c.id) <= s.tables;
    }
  }

  /** Local writes win: whatever has been applied or loaded, the next local write is stamped
      past everything held and so replaces whatever its cell holds. */
  lemma LocalWritesWin(s: State, us: seq<Update>, counter: Timestamp, id: CellId, value: Value, now: Timestamp)
    requires Consistent(s) && forall u :: u in us ==> WellFormed(u)
    requires Loaded(s, us, counter).clock < U64_MAX
    ensures var n := Loaded(s, us, counter);
      var u := LocalUpdate(id, value, NextTimestamp(n.clock, now));
      && (forall k :: k in n.cells ==> n.cells[k].ts < u.cell.ts)
      && Apply(n.(clock := u.cell.ts), u).cells == n.cells[id := u.cell]
  {
    ApplyAllConsistent(s, us);
    LaterClockConsistent(ApplyAll(s, us), Loaded(s, us, counter).clock);
  }

  lemma ConsistentAfterFanOut(s: State, n: State, us: seq<Update>)
    requires Consistent(s) && s.clock <= n.clock && n.cells == PutAll(s.cells, us) && s.tables <= n.tables
    requires forall u :: u in us ==> u.cell.ts <= n.clock && CreatedBy(u.id) <= n.tables
    requires forall t :: t in n.tables ==> !IsSystem(t)
    ensures Consistent(n)
  {
    forall id | id in n.cells ensures n.cells[id].ts <= n.clock && CreatedBy(id) <= n.tables {
      PutAllKeepsWinner(s.cells, us, id);
    }
  }

  /** A table's definition merged and the table started out empty: the workspace is in order
      exactly if the table does not bear a system table's name. */
  lemma TableInstalled(p: Stores, clock: Timestamp, m: Stores, clock2: Timestamp, us: seq<Update>, t: string)
    requires Sorted(p) && Consistent(Whole(p, clock))
    requires Sorted(m) && Flat(m) == PutAll(Flat(p), us) && m.tables == p.tables
    requires clock <= clock2
    requires forall u :: u in us ==> IsSystem(u.id.table) && CreatedBy(u.id) <= {t} && u.cell.ts <= clock2
    ensures var q := Emptied(m, t); Sorted(q) && Consistent(Whole(q, clock2)) <==> !IsSystem(t)
    ensures !IsSystem(t) ==> Flat(Emptied(m, t)) == PutAll(WithoutTable(Flat(p), t), us)
  {
    if IsSystem(t) {
      assert t in Emptied(m, t).tables;
    } else {
      EmptiedTable(m, t);
      CreatedStaysConsistent(Whole(p, clock), Whole(Emptied(m, t), clock2), us, t);
    }
  }

  /** Older updates leave a held cell alone. */
  lemma OlderUpdatesLose(m: CellMap, us: seq<Update>, id: CellId)
    requires id in m && forall u :: u in us && u.id == id ==> u.cell.ts < m[id].ts
    ensures id in PutAll(m, us) && PutAll(m, us)[id] == m[id]
  {
    PutAllKeepsWinner(m, us, id);
    assert Offered(m, us, id, m[id]);
    WinsOverIsRankOrder(PutAll(m, us)[id], m[id]);
  }

  /** After a reorder a column listed last holds its place, under the last stamp. */
  lemma LastColumnHolds(s: State, t: string, cols: seq<string>, ts: Timestamp)
    requires Consistent(s) && s.clock < ts && ts + |cols| <= U64_MAX && cols != []
    ensures var last := |cols| - 1;
      var c, n := CellId(SCHEMA, ColumnRow(t, cols[last]), "order"), PutAll(s.cells, ReorderUpdates(t, cols, ts));
      c in n && n[c] == LocalUpdate(c, Num(last), ts + last).cell
  {
    var us, last := ReorderUpdates(t, cols, ts), |cols| - 1;
    ReorderFansOut(t, cols, ts);
    var c := CellId(SCHEMA, ColumnRow(t, cols[last]), "order");
    assert us[last] in us && us[last] == Update(c, us[last].cell) && Offered(s.cells, us, c, us[last].cell);
    PutAllKeepsWinner(s.cells, us, c);
    var won := PutAll(s.cells, us)[c];
    WinsOverIsRankOrder(won, us[last].cell);
    assert Update(c, won) in us;
    var i :| 0 <= i < |us| && us[i] == Update(c, won);
  }

  /** The only update of a cell, if it wins over what is held, is held afterwards. */
  lemma OnlyUpdateWins(m: CellMap, us: seq<Update>, u: Update)
    requires u in us && forall v :: v in us && v.id == u.id ==> v == u
    requires u.id in m ==> WinsOver(u.cell, m[u.id])
    ensures u.id in PutAll(m, us) && PutAll(m, us)[u.id] == u.cell
  {
    PutAllKeepsWinner(m, us, u.id);
    assert u == Update(u.id, u.cell) && Offered(m, us, u.id, u.cell);
    assert Update(u.id, u.cell) in us;
  }

  /** Moving a column to the front shows exactly if the stamp drawn is no older than the one
      it holds. */
  lemma MoveToFrontShowsIff(held: CellMap, t: string, cols: seq<string>, ts: Timestamp)
    requires cols != [] && ts + |cols| <= U64_MAX && forall i :: 0 < i < |cols| ==> cols[i] != cols[0]
    requires var c := CellId(SCHEMA, ColumnRow(t, cols[0]), "order"); c in held && held[c].server == None
    ensures var c, n := CellId(SCHEMA, ColumnRow(t, cols[0]), "order"), PutAll(held, ReorderUpdates(t, cols, ts));
      c in n && n[c] == if held[c].ts <= ts then LocalUpdate(c, Num(0), ts).cell else held[c]
  {
    hide PutAll, ReorderUpdates, ColumnRow;
    var us, c := ReorderUpdates(t, cols, ts), CellId(SCHEMA, ColumnRow(t, cols[0]), "order");
    forall u | u in us && u.id == c ensures u == LocalUpdate(c, Num(0), ts) {
      FirstColumnStamp(t, cols, ts, u);
    }
    if held[c].ts <= ts {
      ReorderFansOut(t, cols, ts);
      assert us[0] in us;
      OnlyUpdateWins(held, us, us[0]);
    } else {
      OlderUpdatesLose(held, us, c);
    }
  }

  /** Two reorders in a row.  The first hands out stamps past the clock, so a second one that
      moves the last column to the front may draw a stamp that does not beat it: the column
      keeps the place the first one gave it exactly if the second draws a stamp below the last
      of the first.  Within one millisecond that is so from three columns on. */
  lemma SecondReorderLosesIff(s: State, t: string, cols: seq<string>, again: seq<string>, now: Timestamp,
                              now2: Timestamp)
    requires Consistent(s) && cols != [] && again != []
    requires again[0] == cols[|cols| - 1] && forall i :: 0 < i < |again| ==> again[i] != again[0]
    requires var ts := NextTimestamp(s.clock, now);
      ts + |cols| < U64_MAX && NextTimestamp(ts, now2) + |again| <= U64_MAX
    ensures var ts := NextTimestamp(s.clock, now);
      var ts2, last, c := NextTimestamp(ts, now2), |cols| - 1, CellId(SCHEMA, ColumnRow(t, again[0]), "order");
      var n := PutAll(PutAll(s.cells, ReorderUpdates(t, cols, ts)), ReorderUpdates(t, again, ts2));
      && c in n && n[c].value == Num(if ts2 < ts + last then last else 0)
      && (now2 == now ==> (ts2 < ts + last <==> |cols| > 2))
  {
    var ts := NextTimestamp(s.clock, now);
    LastColumnHolds(s, t, cols, ts);
    MoveToFrontShowsIff(PutAll(s.cells, ReorderUpdates(t, cols, ts)), t, again, NextTimestamp(ts, now2));
  }

  lemma FirstColumnStamp(t: string, cols: seq<string>, ts: Timestamp, u: Update)
    requires cols != [] && ts + |cols| <= U64_MAX && u in ReorderUpdates(t, cols, ts)
    requires u.id == CellId(SCHEMA, ColumnRow(t, cols[0]), "order") && forall i :: 0 < i < |cols| ==> cols[i] != cols[0]
    ensures u == LocalUpdate(u.id, Num(0), ts)
  {
    ReorderFansOut(t, cols, ts);
    var us := ReorderUpdates(t, cols, ts);
    var i :| 0 <= i < |us| && us[i] == u;
    SameColumnRow(t, cols[i], cols[0]);
  }

  lemma PutAllOneMore(m: CellMap, us: seq<Update>, u: Update)
    ensures PutAll(m, us + [u]) == Put(PutAll(m, us), u)
  {
    assert (us + [u])[..|us|] == us;
  }

  // ---- filling in a retiring default ----

  /** Some rows of a table, in the order in which they are displayed. */
  ghost function InDisplayOrder(m: CellMap, t: string, rows: set<string>): seq<string> {
    SortBy(rows, RowRanks(ValuesOf(m), t, rows))
  }

  function RowRanks(v: Values, t: string, rows: set<string>): map<string, Rank> {
    map r | r in rows :: RowRank(v, t, r)
  }

  lemma RowsRankApart(v: Values, t: string, r: string, x: string)
    ensures RowRank(v, t, r) == RowRank(v, t, x) <==> r == x
    ensures r != x && !Before(RowRank(v, t, x), RowRank(v, t, r)) ==> Before(RowRank(v, t, r), RowRank(v, t, x))
  {
    var a, b := RowRank(v, t, r), RowRank(v, t, x);
    assert a[|a| - 1] == r && b[|b| - 1] == x;
    BeforeIsStrictTotal(a, b);
  }

  lemma DisplayOrderLists(m: CellMap, t: string, rows: set<string>)
    ensures var order := InDisplayOrder(m, t, rows);
      && |order| == |rows| && (forall r :: r in order <==> r in rows)
      && Order.Ascending(order, RowRanks(ValuesOf(m), t, rows))
      && forall i, j :: 0 <= i < j < |order| ==> order[i] != order[j]
  {
    hide RowRank, Before, ValuesOf;
    var rank, order := RowRanks(ValuesOf(m), t, rows), InDisplayOrder(m, t, rows);
    forall x, y | x in rows && y in rows && rank[x] == rank[y] ensures x == y { RowsRankApart(ValuesOf(m), t, x, y); }
    SortByAscends(rows, rank);
    forall i, j | 0 <= i < j < |order| ensures order[i] != order[j] {
      assert Before(rank[order[i]], rank[order[j]]);
      BeforeIsStrictTotal(rank[order[i]], rank[order[j]]);
    }
  }

  predicate ComesFirst(rank: map<string, Rank>, rest: set<string>, r: string)
    requires rest <= rank.Keys
  {
    r in rest && forall x :: x in rest ==> !Before(rank[x], rank[r])
  }

  /** The rows of a set, in display order. */
  method ListRows(m: CellMap, t: string, rows: set<string>) returns (order: seq<string>)
    ensures order == InDisplayOrder(m, t, rows)
  {
    hide RowRank, Before, ValuesOf;
    order := [];
    var rest, rank := rows, RowRanks(ValuesOf(m), t, rows);
    while rest != {}
      invariant rest <= rows
      invariant forall r :: r in order <==> r in rows && r !in rest
      invariant Order.Ascending(order, rank)
      invariant forall i, x :: 0 <= i < |order| && x in rest ==> Before(rank[order[i]], rank[x])
    {
      LeastExists(rest, rank);
      assert exists x :: ComesFirst(rank, rest, x) by {
        var x :| IsLeast(rest, rank, x);
        assert ComesFirst(rank, rest, x);
      }
      var r :| ComesFirst(rank, rest, r);
      forall x | x in rest - {r} ensures Before(rank[r], rank[x]) { RowsRankApart(ValuesOf(m), t, r, x); }
      order, rest := order + [r], rest - {r};
    }
    DisplayOrderLists(m, t, rows);
    AscendingIsUnique(order, InDisplayOrder(m, t, rows), rank);
  }

  function StampBefore(us: seq<Update>, i: nat, low: Timestamp): Timestamp
    requires i <= |us|
  {
    if i == 0 then low else us[i - 1].cell.ts
  }

  ghost predicate IsNextFill(us: seq<Update>, i: nat, row: string, t: string, col: string, value: Value,
                             low: Timestamp, now: Readings)
    requires i < |us|
  {
    us[i] == LocalUpdate(CellId(t, row, col), value, NextTimestamp(StampBefore(us, i, low), now(i)))
  }

  /** One fill per row, in order, each stamped by the next draw of the clock. */
  ghost predicate FillsInOrder(us: seq<Update>, rows: seq<string>, t: string, col: string, value: Value,
                               low: Timestamp, now: Readings) {
    && |us| == |rows|
    && (forall i :: 0 <= i < |us| ==> IsNextFill(us, i, rows[i], t, col, value, low, now))
    && (forall i :: 0 <= i < |us| ==> low < us[i].cell.ts <= StampBefore(us, |us|, low))
  }

  lemma FillsOneMore(us: seq<Update>, rows: seq<string>, i: nat, t: string, col: string, value: Value,
                     low: Timestamp, now: Readings, u: Update)
    requires i < |rows| && FillsInOrder(us, rows[..i], t, col, value, low, now)
    requires IsNextFill(us + [u], i, rows[i], t, col, value, low, now) && StampBefore(us, i, low) < u.cell.ts
    ensures FillsInOrder(us + [u], rows[..i + 1], t, col, value, low, now)
  {
    hide NextTimestamp;
    var more, done := us + [u], rows[..i + 1];
    forall k | 0 <= k < |more| ensures IsNextFill(more, k, done[k], t, col, value, low, now) {
      if k < i { assert IsNextFill(us, k, rows[..i][k], t, col, value, low, now); }
    }
    assert low <= StampBefore(us, i, low);
  }

  ghost predicate ReadingsWithin(now: Readings, limit: nat) {
    forall k :: now(k) <= limit
  }

  lemma FillAt(us: seq<Update>, i: nat, row: string, t: string, col: string, value: Value, low: Timestamp,
               now: Readings)
    requires i < |us| && IsNextFill(us, i, row, t, col, value, low, now)
    ensures us[i] == LocalUpdate(CellId(t, row, col), value, us[i].cell.ts)
  {
  }

  lemma FillsInOrderFill(us: seq<Update>, m: CellMap, rows: set<string>, t: string, col: string, value: Value,
                         low: Timestamp, now: Readings)
    requires FillsInOrder(us, InDisplayOrder(m, t, rows), t, col, value, low, now)
    ensures Fills(us, rows, t, col, value, low)
  {
    hide InDisplayOrder, StampBefore, IsNextFill;
    var order := InDisplayOrder(m, t, rows);
    DisplayOrderLists(m, t, rows);
    forall i | 0 <= i < |us| ensures us[i] == LocalUpdate(CellId(t, order[i], col), value, us[i].cell.ts) {
      FillAt(us, i, order[i], t, col, value, low, now);
    }
    forall u | u in us ensures IsFill(u, rows, t, col, value) && low < u.cell.ts {
      var i :| 0 <= i < |us| && us[i] == u;
      assert order[i] in order;
    }
    forall r | r in rows ensures exists u :: u in us && u.id.row == r {
      var i :| 0 <= i < |order| && order[i] == r;
      assert us[i] in us;
    }
  }

  lemma FillStaysConsistent(s: State, n: State, rows: set<string>, t: string, col: string, value: Value,
                            us: seq<Update>)
    requires Consistent(s) && Fills(us, rows, t, col, value, s.clock) && t in s.tables
    requires n.cells == PutAll(s.cells, us) && n.tables == s.tables && s.clock <= n.clock
    requires forall u :: u in us ==> u.cell.ts <= n.clock
    ensures Consistent(n)
  {
    forall u | u in us ensures CreatedBy(u.id) <= n.tables { assert IsFill(u, rows, t, col, value); }
    ConsistentAfterFanOut(s, n, us);
  }

  /** What a column update does: the old default, if it must be kept, is filled in row by row
      in display order; then the patch is written.  Every stamp is the next draw of the clock. */
  ghost predicate IsColumnUpdate(s: State, n: State, t: string, col: string, p: Patch, now: Readings,
                                 r: Result<seq<Update>>, fill: seq<Update>) {
    var d, ts := Retiring(ValuesOf(s.cells), t, col, p), NextTimestamp(StampBefore(fill, |fill|, s.clock), now(|fill|));
    && (d.None? ==> fill == [])
    && (d.Some? ==> FillsInOrder(fill, InDisplayOrder(s.cells, t, EmptyRows(s.cells, t, col)), t, col, d.value,
                                 s.clock, now))
    && PatchesAfter(s, n, t, col, p, r, fill, ts)
  }

  ghost predicate PatchesAfter(s: State, n: State, t: string, col: string, p: Patch, r: Result<seq<Update>>,
                               fill: seq<Update>, ts: Timestamp) {
    && s.clock < ts && ts + COLUMN_SPAN <= U64_MAX
    && (forall u :: u in fill ==> u.cell.ts < ts)
    && r == Ok(fill + UpdateColumnUpdates(t, col, p, ts))
    && n.cells == PutAll(PutAll(s.cells, fill), UpdateColumnUpdates(t, col, p, ts))
  }

  /** A rollback end to end.  Whatever the record of the revert adds, every other cell in
      scope has its value at the target point and every other cell out of scope is untouched. */
  lemma RollbackEndToEnd(m: CellMap, restores: seq<Update>, events: seq<Update>, target: Timestamp,
                         scope: Option<string>, next: Timestamp, record: RevertRecord, ts: Timestamp, id: CellId)
    requires RollsBack(restores, m, events, target, scope, next) && forall k :: k in m ==> m[k].ts < next
    requires ts + REVERT_SPAN <= U64_MAX && !(id.table == HISTORY && id.row == record.id)
    ensures var n := PutAll(PutAll(m, restores), RecordRevert(record, ts));
      && (InScope(scope, id) ==> ValueOf(n, id) == ValueOf(AsOf(events, target), id))
      && (!InScope(scope, id) ==> (id in n <==> id in m) && (id in m ==> n[id] == m[id]))
  {
    RollbackIsExact(restores, m, AsOf(events, target), Scope(scope), next, id);
    RecordIsElsewhere(record, ts, id);
    PutAllElsewhere(PutAll(m, restores), RecordRevert(record, ts), id);
  }

  lemma RecordIsElsewhere(record: RevertRecord, ts: Timestamp, id: CellId)
    requires ts + REVERT_SPAN <= U64_MAX && !(id.table == HISTORY && id.row == record.id)
    ensures forall u :: u in RecordRevert(record, ts) ==> u.id != id
  {
  }

  /** The cell reads as the room had it at the point: as an update of it says that had arrived,
      or not yet, and that no other such update outranks; Null if there was none. */
  ghost predicate ReadsAsAt(n: CellMap, events: seq<Update>, target: Timestamp, id: CellId) {
    var held := if id in n then n[id].value else Null;
    if exists u :: u in events && u.id == id && (u.cell.server.None? || u.cell.server.value <= target) then
      exists w :: w in events && w.id == id && w.cell.value == held
        && (w.cell.server.None? || w.cell.server.value <= target)
        && forall u :: u in events && u.id == id && (u.cell.server.None? || u.cell.server.value <= target) ==>
             u.cell.ts < w.cell.ts
             || (u.cell.ts == w.cell.ts
                 && (u.cell.server.None? || (w.cell.server.Some? && u.cell.server.value <= w.cell.server.value)))
    else held == Null
  }

  lemma ReadsAsOf(n: CellMap, events: seq<Update>, target: Timestamp, id: CellId)
    requires ValueOf(n, id) == ValueOf(AsOf(events, target), id)
    ensures ReadsAsAt(n, events, target, id)
  {
    AsOfMeans(events, target, id);
    if id in AsOf(events, target) {
      var w := Update(id, AsOf(events, target)[id]);
      assert w in events;
    }
  }

  /** A rollback of one table: its data, the schema rows of its columns and its registry row
      read as at the point again. */
  lemma RollbackOfATable(m: CellMap, restores: seq<Update>, events: seq<Update>, target: Timestamp, t: string,
                         next: Timestamp, log: seq<Update>, record: RevertRecord, ts: Timestamp, r: string, c: string,
                         x: string)
    requires RollsBack(restores, m, events, target, Some(t), next) && forall k :: k in m ==> m[k].ts < next
    requires ts + REVERT_SPAN <= U64_MAX && (log == [] || log == RecordRevert(record, ts))
    requires !(t == "_history" && r == record.id)
    ensures var n := PutAll(PutAll(m, restores), log);
      && ReadsAsAt(n, events, target, CellId(t, r, c))
      && ReadsAsAt(n, events, target, CellId("_schema", t + "." + c, x))
      && ReadsAsAt(n, events, target, CellId("_tables", t, x))
  {
    hide RollsBack, PutAll, RecordRevert, ReadsAsAt;
    var n := PutAll(PutAll(m, restores), log);
    forall id | id in {CellId(t, r, c), CellId("_schema", t + "." + c, x), CellId("_tables", t, x)}
      ensures ReadsAsAt(n, events, target, id)
    {
      assert t + "." <= t + "." + c;
      RolledBackAt(m, restores, events, target, Some(t), next, log, record, ts, id);
      ReadsAsOf(n, events, target, id);
    }
  }

  lemma RolledBackAt(m: CellMap, restores: seq<Update>, events: seq<Update>, target: Timestamp, scope: Option<string>,
                     next: Timestamp, log: seq<Update>, record: RevertRecord, ts: Timestamp, id: CellId)
    requires RollsBack(restores, m, events, target, scope, next) && forall k :: k in m ==> m[k].ts < next
    requires ts + REVERT_SPAN <= U64_MAX && (log == [] || log == RecordRevert(record, ts))
    requires !(id.table == HISTORY && id.row == record.id)
    ensures var n := PutAll(PutAll(m, restores), log);
      && (InScope(scope, id) ==> ValueOf(n, id) == ValueOf(AsOf(events, target), id))
      && (!InScope(scope, id) ==> (id in n <==> id in m) && (id in m ==> n[id] == m[id]))
  {
    hide RecordRevert, RollsBack, InScope;
    RollbackEndToEnd(m, restores, events, target, scope, next, record, ts, id);
    RecordIsElsewhere(record, ts, id);
    PutAllElsewhere(PutAll(m, restores), log, id);
    PutAllElsewhere(PutAll(m, restores), RecordRevert(record, ts), id);
  }

  /** Everything else is untouched: the data of other tables, their registry rows, and schema
      rows that do not begin with the table's id and a dot. */
  lemma RollbackLeavesTheRest(m: CellMap, restores: seq<Update>, events: seq<Update>, target: Timestamp, t: string,
                              next: Timestamp, log: seq<Update>, record: RevertRecord, ts: Timestamp, id: CellId)
    requires RollsBack(restores, m, events, target, Some(t), next) && forall k :: k in m ==> m[k].ts < next
    requires ts + REVERT_SPAN <= U64_MAX && (log == [] || log == RecordRevert(record, ts))
    requires id.table != t && !(id.table == "_tables" && id.row == t)
    requires id.table == "_schema" ==> |id.row| <= |t| || id.row[..|t| + 1] != t + "."
    requires !(id.table == "_history" && id.row == record.id)
    ensures var n := PutAll(PutAll(m, restores), log); (id in n <==> id in m) && (id in m ==> n[id] == m[id])
  {
    hide RollsBack, PutAll, RecordRevert;
    assert t + "." <= id.row ==> id.row[..|t| + 1] == t + ".";
    RolledBackAt(m, restores, events, target, Some(t), next, log, record, ts, id);
  }

  /** A rollback of the whole workspace: every cell outside the log of reverts reads as at the
      point again, and the log only gains the new row. */
  lemma RollbackOfEverything(m: CellMap, restores: seq<Update>, events: seq<Update>, target: Timestamp,
                             next: Timestamp, log: seq<Update>, record: RevertRecord, ts: Timestamp, id: CellId)
    requires RollsBack(restores, m, events, target, None, next) && forall k :: k in m ==> m[k].ts < next
    requires ts + REVERT_SPAN <= U64_MAX && (log == [] || log == RecordRevert(record, ts))
    ensures var n := PutAll(PutAll(m, restores), log);
      && (id.table != "_history" ==> ReadsAsAt(n, events, target, id))
      && (id.table == "_history" && id.row != record.id ==> (id in n <==> id in m) && (id in m ==> n[id] == m[id]))
  {
    hide RollsBack, PutAll, RecordRevert, ReadsAsAt;
    if !(id.table == "_history" && id.row == record.id) {
      RolledBackAt(m, restores, events, target, None, next, log, record, ts, id);
      if id.table != "_history" { ReadsAsOf(PutAll(PutAll(m, restores), log), events, target, id); }
    }
  }
}
