/** How a workspace spreads its cells over data tables and system managers. */
module Stores {
  import opened Cells
  import opened Reads
  import opened States

  // Routing looks at the table of an update: a data table if there is one of that name, else
  // the manager of that system table, else a table made on the spot.  For updates that no
  // registry row captures this is the flat merge into one map of cells, and the module ends
  // with what a capturing row does.

  datatype Stores = Stores(tables: map<string, CellMap>, schema: CellMap, registry: CellMap, views: CellMap,
                           history: CellMap)

  const NO_CELLS: Stores := Stores(map[], map[], map[], map[], map[])

  /** Where a table's cells are kept.  A data table comes first, whatever its name. */
  function StoreOf(s: Stores, t: string): CellMap {
    if t in s.tables then s.tables[t]
    else match KindOf(t)
      case SchemaTable => s.schema
      case RegistryTable => s.registry
      case ViewsTable => s.views
      case HistoryTable => s.history
      case DataTable => map[]
  }

  function AllIds(s: Stores): set<CellId> {
    (set t, id | t in s.tables && id in s.tables[t] :: id)
    + s.schema.Keys + s.registry.Keys + s.views.Keys + s.history.Keys
  }

  /** All cells of the workspace as one map. */
  function Flat(s: Stores): CellMap {
    map id | id in AllIds(s) && id in StoreOf(s, id.table) :: StoreOf(s, id.table)[id]
  }

  ghost predicate HoldsOnly(m: CellMap, t: string) {
    forall id :: id in m ==> id.table == t
  }

  ghost predicate HoldsKind(m: CellMap, k: Kind) {
    forall id :: id in m ==> KindOf(id.table) == k
  }

  /** Every store holds its own table's cells, and no data table bears a system name. */
  ghost predicate Sorted(s: Stores) {
    && (forall t :: t in s.tables ==> !IsSystem(t) && HoldsOnly(s.tables[t], t))
    && HoldsKind(s.schema, SchemaTable) && HoldsKind(s.registry, RegistryTable)
    && HoldsKind(s.views, ViewsTable) && HoldsKind(s.history, HistoryTable)
  }

  lemma FlatHolds(s: Stores, id: CellId)
    requires Sorted(s)
    ensures id in Flat(s) <==> id in StoreOf(s, id.table)
    ensures id in Flat(s) ==> Flat(s)[id] == StoreOf(s, id.table)[id]
  {
    if id in StoreOf(s, id.table) {
      assert id in AllIds(s);
    }
  }

  function TableOrEmpty(s: Stores, t: string): CellMap {
    if t in s.tables then s.tables[t] else map[]
  }

  /** Deliver one update to the table that takes it. */
  function Route(s: Stores, u: Update): Stores {
    var t := u.id.table;
    if t in s.tables then s.(tables := s.tables[t := Put(s.tables[t], u)])
    else match KindOf(t)
      case RegistryTable =>
        s.(tables := s.tables[u.id.row := TableOrEmpty(s, u.id.row)], registry := Put(s.registry, u))
      case SchemaTable => s.(schema := Put(s.schema, u))
      case ViewsTable => s.(views := Put(s.views, u))
      case HistoryTable => s.(history := Put(s.history, u))
      case DataTable => s.(tables := s.tables[t := Put(map[], u)])
  }

  /** Deliver an update straight to a system manager: no table comes into being. */
  function Manage(s: Stores, u: Update): Stores {
    match KindOf(u.id.table)
    case SchemaTable => s.(schema := Put(s.schema, u))
    case RegistryTable => s.(registry := Put(s.registry, u))
    case ViewsTable => s.(views := Put(s.views, u))
    case HistoryTable => s.(history := Put(s.history, u))
    case DataTable => s
  }

  function RouteAll(s: Stores, us: seq<Update>): Stores {
    if us == [] then s else Route(RouteAll(s, us[..|us| - 1]), us[|us| - 1])
  }

  function ManageAll(s: Stores, us: seq<Update>): Stores {
    if us == [] then s else Manage(ManageAll(s, us[..|us| - 1]), us[|us| - 1])
  }

  lemma {:induction false} ManagingLeavesTables(s: Stores, us: seq<Update>)
    ensures ManageAll(s, us).tables == s.tables
  {
    if us != [] { ManagingLeavesTables(s, us[..|us| - 1]); }
  }

  lemma KindsAreNamed(t: string, u: string)
    requires KindOf(t) == KindOf(u) != DataTable
    ensures t == u
  {
  }

  lemma PutHoldsOnly(m: CellMap, u: Update, t: string)
    requires HoldsOnly(m, t) && u.id.table == t
    ensures HoldsOnly(Put(m, u), t)
  {
  }

  lemma PutHoldsKind(m: CellMap, u: Update, k: Kind)
    requires HoldsKind(m, k) && KindOf(u.id.table) == k
    ensures HoldsKind(Put(m, u), k)
  {
  }

  lemma NewTableStaysSorted(s: Stores, t: string, m: CellMap)
    requires Sorted(s) && !IsSystem(t) && HoldsOnly(m, t)
    ensures Sorted(s.(tables := s.tables[t := m]))
  {
  }

  lemma SystemPutStaysSorted(s: Stores, u: Update)
    requires Sorted(s) && IsSystem(u.id.table)
    ensures Sorted(Manage(s, u))
  {
    match KindOf(u.id.table)
    case RegistryTable => PutHoldsKind(s.registry, u, RegistryTable);
    case SchemaTable => PutHoldsKind(s.schema, u, SchemaTable);
    case ViewsTable => PutHoldsKind(s.views, u, ViewsTable);
    case HistoryTable => PutHoldsKind(s.history, u, HistoryTable);
  }

  lemma RouteKeepsSorted(s: Stores, u: Update)
    requires Sorted(s) && WellFormed(u)
    ensures Sorted(Route(s, u))
  {
    var t := u.id.table;
    if IsSystem(t) {
      SystemPutStaysSorted(s, u);
      if KindOf(t) == RegistryTable {
        NewTableStaysSorted(Manage(s, u), u.id.row, TableOrEmpty(s, u.id.row));
      }
    } else {
      PutHoldsOnly(TableOrEmpty(s, t), u, t);
      NewTableStaysSorted(s, t, Put(TableOrEmpty(s, t), u));
    }
  }

  lemma RouteStoresHere(s: Stores, u: Update)
    requires WellFormed(u)
    ensures StoreOf(Route(s, u), u.id.table) == Put(StoreOf(s, u.id.table), u)
  {
    if u.id.table !in s.tables {
      match KindOf(u.id.table)
      case RegistryTable =>
      case SchemaTable =>
      case ViewsTable =>
      case HistoryTable =>
      case DataTable =>
    }
  }

  lemma RouteStoresElsewhere(s: Stores, u: Update, t: string)
    requires WellFormed(u) && t != u.id.table && (u.id.table in s.tables ==> !IsSystem(u.id.table))
    ensures StoreOf(Route(s, u), t) == StoreOf(s, t)
  {
    hide Put;
    if KindOf(t) == KindOf(u.id.table) != DataTable { KindsAreNamed(t, u.id.table); }
    if u.id.table !in s.tables {
      match KindOf(u.id.table) {
        case RegistryTable =>
          if t == u.id.row { assert KindOf(t) == DataTable; }
        case SchemaTable =>
        case ViewsTable =>
        case HistoryTable =>
        case DataTable =>
      }
    }
  }

  lemma RouteAddsTables(s: Stores, u: Update)
    requires u.id.table in s.tables ==> !IsSystem(u.id.table)
    ensures Route(s, u).tables.Keys == s.tables.Keys + CreatedBy(u.id)
  {
    if u.id.table !in s.tables {
      match KindOf(u.id.table)
      case RegistryTable =>
      case SchemaTable =>
      case ViewsTable =>
      case HistoryTable =>
      case DataTable =>
    }
  }

  ghost predicate OneStoreMerges(s: Stores, r: Stores, u: Update) {
    forall t :: StoreOf(r, t) == if t == u.id.table then Put(StoreOf(s, t), u) else StoreOf(s, t)
  }

  ghost predicate AgreeAt(a: CellMap, b: CellMap, id: CellId) {
    (id in a <==> id in b) && (id in a ==> a[id] == b[id])
  }

  lemma PutAgrees(flat: CellMap, store: CellMap, u: Update, id: CellId)
    requires AgreeAt(flat, store, id) && AgreeAt(flat, store, u.id)
    ensures AgreeAt(Put(flat, u), Put(store, u), id)
  {
  }

  lemma PutElsewhere(flat: CellMap, u: Update, id: CellId)
    requires id != u.id
    ensures AgreeAt(Put(flat, u), flat, id)
  {
  }

  lemma OneStoreMergesIsFlatPut(s: Stores, r: Stores, u: Update)
    requires Sorted(s) && Sorted(r) && OneStoreMerges(s, r, u)
    ensures Flat(r) == Put(Flat(s), u)
  {
    forall id ensures AgreeAt(Flat(r), Put(Flat(s), u), id) {
      FlatHolds(s, id);
      FlatHolds(r, id);
      if id.table == u.id.table {
        FlatHolds(s, u.id);
        PutAgrees(Flat(s), StoreOf(s, id.table), u, id);
      } else {
        PutElsewhere(Flat(s), u, id);
      }
    }
    SameMaps(Flat(r), Put(Flat(s), u));
  }

  lemma SameMaps(a: CellMap, b: CellMap)
    requires forall id :: AgreeAt(a, b, id)
    ensures a == b
  {
    assert forall id :: id in a <==> id in b by {
      forall id ensures id in a <==> id in b { assert AgreeAt(a, b, id); }
    }
    forall id | id in a ensures a[id] == b[id] { assert AgreeAt(a, b, id); }
  }

  /** Routing refines the flat merge: delivering a well-formed update to its table merges it
      into the one map of cells and adds the tables it creates. */
  lemma RoutingIsTheFlatMerge(s: Stores, u: Update)
    requires Sorted(s) && WellFormed(u)
    ensures Sorted(Route(s, u))
    ensures Flat(Route(s, u)) == Put(Flat(s), u)
    ensures Route(s, u).tables.Keys == s.tables.Keys + CreatedBy(u.id)
  {
    RouteKeepsSorted(s, u);
    RouteAddsTables(s, u);
    RouteStoresHere(s, u);
    forall t | t != u.id.table ensures StoreOf(Route(s, u), t) == StoreOf(s, t) {
      RouteStoresElsewhere(s, u, t);
    }
    OneStoreMergesIsFlatPut(s, Route(s, u), u);
  }

  // ---- rows that capture routing ----

  function Managed(s: Stores, k: Kind): CellMap {
    match k
    case SchemaTable => s.schema
    case RegistryTable => s.registry
    case ViewsTable => s.views
    case HistoryTable => s.history
    case DataTable => map[]
  }

  /** Routing stays in order after exactly the updates that are not registry rows named like
      a system table. */
  lemma StaysSortedIff(s: Stores, u: Update)
    requires Sorted(s)
    ensures Sorted(Route(s, u)) <==> WellFormed(u)
  {
    if WellFormed(u) {
      RouteKeepsSorted(s, u);
    } else {
      assert u.id.row in Route(s, u).tables;
    }
  }

  /** An update of a system table reaches its manager exactly if no table captures it, or it
      would have changed nothing there. */
  lemma ReachesManagerIff(s: Stores, u: Update)
    requires IsSystem(u.id.table)
    ensures var k := KindOf(u.id.table);
      Managed(Route(s, u), k) == Put(Managed(s, k), u) <==>
      u.id.table !in s.tables || Put(Managed(s, k), u) == Managed(s, k)
  {
    match KindOf(u.id.table)
    case RegistryTable =>
    case SchemaTable =>
    case ViewsTable =>
    case HistoryTable =>
    case DataTable =>
  }

  lemma CapturedRoute(s: Stores, u: Update)
    requires Sorted(s) && !WellFormed(u)
    ensures Route(s, u) == s.(tables := s.tables[u.id.row := map[]], registry := Put(s.registry, u))
    ensures KindOf(TABLES) == RegistryTable && TABLES !in s.tables
  {
    hide Put;
    assert IsSystem(TABLES) && KindOf(u.id.table) == RegistryTable;
  }

  lemma CapturedStoreOf(s: Stores, u: Update, t: string)
    requires Sorted(s) && !WellFormed(u)
    ensures StoreOf(Route(s, u), t) ==
      if t == u.id.row then map[] else if t == TABLES then Put(s.registry, u) else StoreOf(s, t)
  {
    hide Put, Route, TableOrEmpty;
    CapturedRoute(s, u);
    if KindOf(t) == RegistryTable { KindsAreNamed(t, TABLES); }
  }

  lemma CapturingHides(s: Stores, u: Update, id: CellId)
    requires Sorted(s) && !WellFormed(u) && id in Managed(s, KindOf(u.id.row)) && id.table == u.id.row
    ensures id in Flat(s) && id !in Flat(Route(s, u))
  {
    CapturedStoreOf(s, u, id.table);
    FlatHolds(s, id);
  }

  lemma CapturedFlat(s: Stores, u: Update, id: CellId)
    requires Sorted(s) && !WellFormed(u)
    ensures AgreeAt(Flat(Route(s, u)), StoreOf(Route(s, u), id.table), id)
  {
    var r := Route(s, u);
    if id in StoreOf(r, id.table) { assert id in AllIds(r); }
  }

  lemma EmptyTableCaptured(s: Stores, u: Update, t: string)
    requires Sorted(s) && !WellFormed(u) && u.id.row != TABLES && Managed(s, KindOf(u.id.row)) == map[]
    ensures StoreOf(Route(s, u), t) == if t == u.id.table then Put(StoreOf(s, t), u) else StoreOf(s, t)
  {
    CapturedStoreOf(s, u, t);
    KindsAreNamed(u.id.table, TABLES);
  }

  lemma CapturingAnEmptyTable(s: Stores, u: Update, id: CellId)
    requires Sorted(s) && !WellFormed(u) && u.id.row != TABLES && Managed(s, KindOf(u.id.row)) == map[]
    ensures AgreeAt(Flat(Route(s, u)), Put(Flat(s), u), id)
  {
    CapturedFlat(s, u, id);
    EmptyTableCaptured(s, u, id.table);
    FlatHolds(s, id);
    FlatHolds(s, u.id);
    hide Flat, Route, StoreOf, Sorted, Managed, WellFormed, Put;
    if id.table == u.id.table {
      PutAgrees(Flat(s), StoreOf(s, id.table), u, id);
    } else {
      PutElsewhere(Flat(s), u, id);
    }
  }

  /** A capturing row still merges flatly exactly if the table it captures is another one than
      its own and has no cell so far. */
  lemma CapturedMergesIff(s: Stores, u: Update)
    requires Sorted(s) && !WellFormed(u)
    ensures Flat(Route(s, u)) == Put(Flat(s), u) <==> u.id.row != TABLES && Managed(s, KindOf(u.id.row)) == map[]
  {
    var r, k := Route(s, u), KindOf(u.id.row);
    KindsAreNamed(u.id.table, TABLES);
    if u.id.row == TABLES {
      CapturedFlat(s, u, u.id);
      CapturedStoreOf(s, u, TABLES);
      assert u.id !in Flat(r);
    } else if Managed(s, k) != map[] {
      var id :| id in Managed(s, k);
      KindsAreNamed(id.table, u.id.row);
      CapturingHides(s, u, id);
    } else {
      forall id ensures AgreeAt(Flat(r), Put(Flat(s), u), id) { CapturingAnEmptyTable(s, u, id); }
      SameMaps(Flat(r), Put(Flat(s), u));
    }
  }

  /** What this does: a column deletion that follows such a row lands in a data table and the
      schema never learns of it. */
  lemma CapturedRouting()
    ensures var row := LocalUpdate(CellId(TABLES, SCHEMA, "name"), Str("x"), 1);
      var deletion := LocalUpdate(CellId(SCHEMA, "t.c", "deleted"), Bool(true), 2);
      && !WellFormed(row)
      && Route(Route(NO_CELLS, row), deletion).schema == map[]
      && Route(Route(NO_CELLS, deletion), row).schema != map[]
  {
  }
}
