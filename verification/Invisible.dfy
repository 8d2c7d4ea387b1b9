/** Compaction changes nothing a user can see, and no deleted data comes back.

    A bump repeats a value under a new stamp.  Values decide schemas, views, tombstones and
    the deletion cutoffs; stamps decide only whether user data lies past a cutoff.  Since a
    cell past its cutoff is never bumped, nothing hidden is refreshed and nothing shown is
    hidden. */
module Invisible {
  import opened Cells
  import opened Reads
  import opened States
  import opened Compaction

  /** The same write without compaction. */
  function PlainWrite(s: State, w: Write): State {
    Apply(s.(clock := UserUpdate(s, w).cell.ts), UserUpdate(s, w))
  }

  ghost predicate RefreshedAt(v: Values, was: Cell, now: Cell, id: CellId) {
    && now.value == was.value
    && (now != was ==> was.ts < now.ts && (IsSystem(id.table) || !Stale(v, id, was.ts)))
  }

  /** `n` is `m` with the timestamps of some cells raised, each of them live in `m`. */
  ghost predicate Refreshed(m: CellMap, n: CellMap) {
    && m.Keys == n.Keys
    && forall id :: id in m ==> RefreshedAt(ValuesOf(m), m[id], n[id], id)
  }

  /** Refreshing live cells leaves the displayed rows of every table as they were. */
  lemma RefreshedLooksTheSame(m: CellMap, n: CellMap, t: string)
    requires Refreshed(m, n) && !IsSystem(t)
    ensures ValuesOf(m) == ValuesOf(n)
    ensures RawRows(m, t) == RawRows(n, t)
  {
    assert ValuesOf(m) == ValuesOf(n);
    var v := ValuesOf(m);
    forall id | id in m && id.table == t ensures VisibleCell(m, id) <==> VisibleCell(n, id) {
    }
    forall r ensures Listed(m, t, r) <==> Listed(n, t, r) {
      var floor := TableFloor(v, t);
      if floor.Some? {
        forall id | id in m && id.table == t && n[id] != m[id] ensures m[id].ts > floor.value {
          assert !AtOrBefore(m[id].ts, floor);
        }
      }
    }
    SameRows(m, n, t);
  }

  lemma RefreshedSameValues(m: CellMap, n: CellMap)
    requires Refreshed(m, n)
    ensures ValuesOf(m) == ValuesOf(n)
  {
  }

  lemma WriteRefreshesAt(s: State, w: Write, size: Size, id: CellId)
    requires LegalWrite(s, w, size) && id in s.cells && id != w.id
    ensures id in AfterWrite(s, w, size).cells
    ensures RefreshedAt(ValuesOf(s.cells), s.cells[id], AfterWrite(s, w, size).cells[id], id)
  {
    var n, batch := AfterWrite(s, w, size).cells, Batch(s, w, size);
    AfterWriteAt(s, w, size);
    if u :| u in batch && u.id == id {
      BumpsKeepValues(s, w, size);
      BatchStamps(s, w, size);
      var i :| 0 <= i < |batch| && batch[i] == u;
      assert batch[i] == Bumps(s, w, size).0[i - 1];
    }
  }

  lemma RefreshedAroundUser(held: CellMap, user: Update, n: CellMap)
    requires !IsSystem(user.id.table)
    requires n.Keys == held.Keys + {user.id} && n[user.id] == user.cell
    requires forall id :: id in held && id != user.id ==> RefreshedAt(ValuesOf(held), held[id], n[id], id)
    ensures Refreshed(held[user.id := user.cell], n)
  {
    var m := held[user.id := user.cell];
    assert SameMarks(ValuesOf(held), ValuesOf(m));
    forall id | id in m ensures RefreshedAt(ValuesOf(m), m[id], n[id], id) {
      if id != user.id {
        StaleFromMarks(ValuesOf(held), ValuesOf(m), id, m[id].ts);
      }
    }
  }

  lemma PlainWritePuts(s: State, w: Write)
    requires ClockCovers(s) && UserUpdate(s, w).cell.ts > s.clock
    ensures PlainWrite(s, w).cells == s.cells[w.id := UserUpdate(s, w).cell]
  {
  }

  lemma WriteHoldsUserCell(s: State, w: Write, size: Size)
    requires LegalWrite(s, w, size)
    ensures AfterWrite(s, w, size).cells.Keys == s.cells.Keys + {w.id}
    ensures AfterWrite(s, w, size).cells[w.id] == UserUpdate(s, w).cell
    ensures UserUpdate(s, w).cell.ts > s.clock
  {
    AfterWriteAt(s, w, size);
    BatchStamps(s, w, size);
    assert Batch(s, w, size)[0] == UserUpdate(s, w);
  }

  lemma WriteRefreshes(s: State, w: Write, size: Size)
    requires LegalWrite(s, w, size)
    ensures Refreshed(PlainWrite(s, w).cells, AfterWrite(s, w, size).cells)
  {
    var n := AfterWrite(s, w, size).cells;
    WriteHoldsUserCell(s, w, size);
    PlainWritePuts(s, w);
    forall id | id in s.cells && id != w.id ensures RefreshedAt(ValuesOf(s.cells), s.cells[id], n[id], id) {
      WriteRefreshesAt(s, w, size, id);
    }
    RefreshedAroundUser(s.cells, UserUpdate(s, w), n);
  }

  ghost predicate LooksTheSame(a: State, b: State) {
    && ValuesOf(a.cells) == ValuesOf(b.cells)
    && a.tables == b.tables
    && LiveTables(ValuesOf(a.cells), a.tables) == LiveTables(ValuesOf(b.cells), b.tables)
    && forall t :: t in a.tables ==> RawRows(a.cells, t) == RawRows(b.cells, t)
  }

  lemma RefreshedStatesLookTheSame(a: State, b: State)
    requires Refreshed(a.cells, b.cells) && a.tables == b.tables
    requires forall t :: t in a.tables ==> !IsSystem(t)
    ensures LooksTheSame(a, b)
  {
    RefreshedSameValues(a.cells, b.cells);
    forall t | t in a.tables ensures RawRows(a.cells, t) == RawRows(b.cells, t) {
      RefreshedLooksTheSame(a.cells, b.cells, t);
    }
  }

  /** Bumps are invisible: compared with the plain write, the write with its bumps leaves
      every cell's value (so every schema, view and deletion mark), the table list and
      every table's displayed rows the same. */
  lemma BumpsAreInvisible(s: State, w: Write, size: Size)
    requires LegalWrite(s, w, size)
    ensures LooksTheSame(PlainWrite(s, w), AfterWrite(s, w, size))
  {
    WriteRefreshes(s, w, size);
    AfterWriteFacts(s, w, size);
    assert PlainWrite(s, w).tables == s.tables;
    RefreshedStatesLookTheSame(PlainWrite(s, w), AfterWrite(s, w, size));
  }
}
