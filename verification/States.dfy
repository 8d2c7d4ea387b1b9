/** The workspace as one value: merged cells, known tables and the hybrid logical clock. */
module States {
  import opened Cells
  import opened Reads

  datatype State = State(cells: CellMap, tables: set<string>, clock: Timestamp)

  const EMPTY: State := State(map[], {}, 0)

  function Max(a: Timestamp, b: Timestamp): Timestamp {
    if a >= b then a else b
  }

  /** The clock once it has seen the updates. */
  function Latest(clock: Timestamp, us: seq<Update>): Timestamp {
    if us == [] then clock else Max(Latest(clock, us[..|us| - 1]), us[|us| - 1].cell.ts)
  }

  /** A stamp for a local write: past everything seen, and not behind the wall clock. */
  function NextTimestamp(clock: Timestamp, now: Timestamp): (ts: Timestamp)
    ensures clock <= ts && now <= ts
    ensures clock < ts <==> clock < U64_MAX
    ensures ts == now || ts == clock + 1 || ts == clock == U64_MAX
  {
    Max(if clock < U64_MAX then clock + 1 else U64_MAX, now)
  }

  /** Tables that come into being when a cell with this id arrives: a registry row makes
      its table, and a data cell makes the table it belongs to. */
  function CreatedBy(id: CellId): set<string> {
    match KindOf(id.table)
    case RegistryTable => {id.row}
    case DataTable => {id.table}
    case _ => {}
  }

  function Apply(s: State, u: Update): State {
    State(Put(s.cells, u), s.tables + CreatedBy(u.id), Max(s.clock, u.cell.ts))
  }

  function ApplyAll(s: State, us: seq<Update>): State {
    if us == [] then s else Apply(ApplyAll(s, us[..|us| - 1]), us[|us| - 1])
  }

  /** No registry row carries a system table's name, so no data table captures its cells. */
  predicate WellFormed(u: Update) {
    KindOf(u.id.table) == RegistryTable ==> !IsSystem(u.id.row)
  }

  ghost predicate ClockCovers(s: State) {
    forall id :: id in s.cells ==> s.cells[id].ts <= s.clock
  }

  ghost predicate Consistent(s: State) {
    && ClockCovers(s)
    && (forall t :: t in s.tables ==> !IsSystem(t))
    && (forall id :: id in s.cells ==> CreatedBy(id) <= s.tables)
  }

  lemma {:induction false} ApplyAllFacts(s: State, us: seq<Update>)
    ensures ApplyAll(s, us).cells == PutAll(s.cells, us)
    ensures s.clock <= ApplyAll(s, us).clock
    ensures forall u :: u in us ==> u.cell.ts <= ApplyAll(s, us).clock
    ensures ApplyAll(s, us).clock == s.clock || exists u :: u in us && u.cell.ts == ApplyAll(s, us).clock
    ensures s.tables <= ApplyAll(s, us).tables
    ensures forall t :: t in ApplyAll(s, us).tables <==> t in s.tables || exists u :: u in us && t in CreatedBy(u.id)
  {
    if us != [] {
      var n := |us| - 1;
      ApplyAllFacts(s, us[..n]);
      assert us == us[..n] + [us[n]];
    }
  }

  /** Applying well-formed updates keeps the clock past every held timestamp, keeps system
      names out of the data tables, and keeps every cell's table known. */
  lemma {:induction false} ApplyAllConsistent(s: State, us: seq<Update>)
    requires Consistent(s) && forall u :: u in us ==> WellFormed(u)
    ensures Consistent(ApplyAll(s, us))
  {
    if us != [] {
      var n := |us| - 1;
      assert us[n] in us;
      ApplyAllConsistent(s, us[..n]);
    }
  }

  lemma {:induction false} ApplyAllAppend(s: State, us: seq<Update>, vs: seq<Update>)
    ensures ApplyAll(s, us + vs) == ApplyAll(ApplyAll(s, us), vs)
  {
    if vs == [] {
      assert us + vs == us;
    } else {
      var n := |vs| - 1;
      assert (us + vs)[..|us + vs| - 1] == us + vs[..n];
      ApplyAllAppend(s, us, vs[..n]);
    }
  }

  lemma SameClock(s: State, us: seq<Update>, vs: seq<Update>)
    requires SameUpdates(us, vs)
    ensures ApplyAll(s, us).clock <= ApplyAll(s, vs).clock
  {
    ApplyAllFacts(s, us);
    ApplyAllFacts(s, vs);
  }

  lemma SameTables(s: State, us: seq<Update>, vs: seq<Update>)
    requires SameUpdates(us, vs)
    ensures ApplyAll(s, us).tables == ApplyAll(s, vs).tables
  {
    ApplyAllFacts(s, us);
    ApplyAllFacts(s, vs);
  }

  /** Convergence of whole workspaces: the same updates in any order, with any
      repetition, give the same cells, the same tables and the same clock, even when
      data cells arrive before their table's registry row. */
  lemma ReplicasConverge(s: State, us: seq<Update>, vs: seq<Update>)
    requires SameUpdates(us, vs) && TiesOutranked(s.cells, us)
    ensures ApplyAll(s, us) == ApplyAll(s, vs)
  {
    assert ApplyAll(s, us).cells == ApplyAll(s, vs).cells by {
      Convergence(s.cells, us, vs);
      ApplyAllFacts(s, us);
      ApplyAllFacts(s, vs);
    }
    SameClock(s, us, vs);
    SameClock(s, vs, us);
    SameTables(s, us, vs);
  }

  /** Tables shown to the user: known and not tombstoned. */
  function LiveTables(v: Values, tables: set<string>): set<string> {
    set t | t in tables && !TableDeleted(v, t)
  }

  ghost predicate DistinctIds(us: seq<Update>) {
    forall i, j :: 0 <= i < j < |us| ==> us[i].id != us[j].id
  }

  lemma FreshReplacesAt(m: CellMap, us: seq<Update>, clock: Timestamp, id: CellId)
    requires DistinctIds(us)
    requires forall u :: u in us ==> u.cell.ts > clock
    requires forall k :: k in m ==> m[k].ts <= clock
    ensures id in PutAll(m, us) <==> id in m || exists u :: u in us && u.id == id
    ensures forall u :: u in us && u.id == id ==> PutAll(m, us)[id] == u.cell
    ensures id in m && (forall u :: u in us ==> u.id != id) ==> PutAll(m, us)[id] == m[id]
  {
    PutAllKeepsWinner(m, us, id);
    if id in m { assert Offered(m, us, id, m[id]); }
    forall u | u in us && u.id == id
      ensures id in PutAll(m, us) && PutAll(m, us)[id] == u.cell
    {
      assert u == Update(id, u.cell);
      assert Offered(m, us, id, u.cell);
      var won := PutAll(m, us)[id];
      WinsOverIsRankOrder(won, u.cell);
      var i :| 0 <= i < |us| && us[i] == u;
      var j :| 0 <= j < |us| && us[j] == Update(id, won);
    }
  }

  /** A batch of updates to distinct cells, all stamped after everything held, replaces
      exactly the cells it names. */
  lemma FreshBatchReplaces(m: CellMap, us: seq<Update>, clock: Timestamp)
    requires DistinctIds(us)
    requires forall u :: u in us ==> u.cell.ts > clock
    requires forall id :: id in m ==> m[id].ts <= clock
    ensures forall id :: id in PutAll(m, us) <==> id in m || exists u :: u in us && u.id == id
    ensures forall u :: u in us ==> u.id in PutAll(m, us) && PutAll(m, us)[u.id] == u.cell
    ensures forall id :: id in m && (forall u :: u in us ==> u.id != id)
              ==> id in PutAll(m, us) && PutAll(m, us)[id] == m[id]
  {
    forall id
      ensures id in PutAll(m, us) <==> id in m || exists u :: u in us && u.id == id
      ensures forall u :: u in us && u.id == id ==> PutAll(m, us)[id] == u.cell
      ensures id in m && (forall u :: u in us ==> u.id != id) ==> PutAll(m, us)[id] == m[id]
    {
      FreshReplacesAt(m, us, clock, id);
    }
  }

  // ---- snapshots ----

  ghost predicate ListsExactly(cells: seq<Update>, m: CellMap) {
    forall u :: u in cells <==> u.id in m && u.cell == m[u.id]
  }

  /** What loading a snapshot gives: the cells replayed, and at least the recorded clock. */
  function Loaded(s: State, cells: seq<Update>, counter: Timestamp): State {
    var n := ApplyAll(s, cells);
    n.(clock := Max(n.clock, counter))
  }

  ghost predicate HasCells(s: State, t: string) {
    exists id :: id in s.cells && t in CreatedBy(id)
  }

  /** A snapshot restores the workspace it was taken from: every cell, the clock, and every
      table that has a registry row or a cell; a table with neither is lost. */
  lemma SnapshotRestores(s: State, cells: seq<Update>)
    requires Consistent(s) && ListsExactly(cells, s.cells)
    ensures Loaded(EMPTY, cells, s.clock).cells == s.cells
    ensures Loaded(EMPTY, cells, s.clock).clock == s.clock
    ensures Loaded(EMPTY, cells, s.clock).tables == set t | t in s.tables && HasCells(s, t)
  {
    ApplyAllFacts(EMPTY, cells);
    forall id ensures id in PutAll(map[], cells) <==> id in s.cells
      ensures id in s.cells ==> PutAll(map[], cells)[id] == s.cells[id]
    {
      PutAllKeepsWinner(map[], cells, id);
      if id in s.cells { assert Update(id, s.cells[id]) in cells && Offered(map[], cells, id, s.cells[id]); }
    }
    SnapshotTables(s, cells);
  }

  lemma SnapshotTables(s: State, cells: seq<Update>)
    requires Consistent(s) && ListsExactly(cells, s.cells)
    ensures ApplyAll(EMPTY, cells).tables == set t | t in s.tables && HasCells(s, t)
  {
    ApplyAllFacts(EMPTY, cells);
    forall t ensures t in ApplyAll(EMPTY, cells).tables <==> t in s.tables && HasCells(s, t) {
      if HasCells(s, t) {
        var id :| id in s.cells && t in CreatedBy(id);
        assert Update(id, s.cells[id]) in cells;
      }
    }
  }

  /** The tables a workspace knows: those with a registry row and those with a cell. */
  lemma {:induction false} TablesAre(us: seq<Update>, t: string)
    ensures t in ApplyAll(EMPTY, us).tables <==>
      exists u :: u in us && ((u.id.table == "_tables" && u.id.row == t) ||
                              (u.id.table == t && t !in {"_schema", "_tables", "_views", "_history"}))
  {
    if us != [] {
      var n := |us| - 1;
      TablesAre(us[..n], t);
      assert forall u :: u in us <==> u in us[..n] || u == us[n];
    }
  }
}
