/** Choosing the stalest live cells of the whole workspace from per-table shortlists. */
module Selection {
  import opened Cells
  import opened Reads
  import opened Compaction
  import opened Stores

  function InsertByAge(c: Candidate, cs: seq<Candidate>): (r: seq<Candidate>)
    ensures multiset(r) == multiset(cs) + multiset{c}
    ensures |r| == |cs| + 1
  {
    if cs == [] then [c]
    else if c.ts <= cs[0].ts then [c] + cs
    else
      var r := [cs[0]] + InsertByAge(c, cs[1..]);
      assert cs == [cs[0]] + cs[1..];
      r
  }

  /** A stable sort by age. */
  function SortByAge(cs: seq<Candidate>): (r: seq<Candidate>)
    ensures multiset(r) == multiset(cs)
    ensures |r| == |cs|
  {
    if cs == [] then []
    else
      assert cs == [cs[0]] + cs[1..];
      InsertByAge(cs[0], SortByAge(cs[1..]))
  }

  ghost predicate Aged(cs: seq<Candidate>) {
    forall i, j :: 0 <= i < j < |cs| ==> cs[i].ts <= cs[j].ts
  }

  lemma {:induction false} InsertKeepsAged(c: Candidate, cs: seq<Candidate>)
    requires Aged(cs)
    ensures Aged(InsertByAge(c, cs))
  {
    if cs != [] && c.ts > cs[0].ts {
      InsertKeepsAged(c, cs[1..]);
      var rest := InsertByAge(c, cs[1..]);
      forall x | x in rest ensures cs[0].ts <= x.ts {
        assert x in multiset(rest);
        assert x in cs[1..] || x == c;
        if x in cs[1..] {
          var k :| 0 <= k < |cs[1..]| && cs[1..][k] == x;
          assert cs[k + 1] == x;
        }
      }
    }
  }

  lemma {:induction false} SortIsAged(cs: seq<Candidate>)
    ensures Aged(SortByAge(cs))
    ensures forall c :: c in SortByAge(cs) <==> c in cs
  {
    if cs != [] {
      SortIsAged(cs[1..]);
      InsertKeepsAged(cs[0], SortByAge(cs[1..]));
    }
    forall c ensures c in SortByAge(cs) <==> c in cs {
      assert c in SortByAge(cs) <==> c in multiset(SortByAge(cs));
      assert c in cs <==> c in multiset(cs);
    }
  }

  /** Distinctness survives reordering. */
  lemma DistinctAfterSort(cs: seq<Candidate>)
    requires DistinctCells(cs)
    ensures DistinctCells(SortByAge(cs))
  {
    var r := SortByAge(cs);
    forall i, j | 0 <= i < j < |r| ensures r[i].id != r[j].id {
      if r[i].id == r[j].id {
        SortIsAged(cs);
        assert r[i] in cs && r[j] in cs;
        assert multiset(r) == multiset(cs);
        if r[i] == r[j] {
          TwiceInMultiset(r, i, j);
          OnceInMultiset(cs, r[i]);
        }
        assert false;
      }
    }
  }

  lemma TwiceInMultiset(r: seq<Candidate>, i: nat, j: nat)
    requires i < j < |r| && r[i] == r[j]
    ensures multiset(r)[r[i]] >= 2
  {
    assert r == r[..i] + [r[i]] + r[i + 1..j] + [r[j]] + r[j + 1..];
  }

  lemma {:induction false} OnceInMultiset(cs: seq<Candidate>, c: Candidate)
    requires DistinctCells(cs)
    ensures multiset(cs)[c] <= 1
  {
    if cs != [] {
      assert cs == [cs[0]] + cs[1..];
      OnceInMultiset(cs[1..], c);
      if c == cs[0] {
        forall k | 0 <= k < |cs[1..]| ensures cs[1..][k] != c { assert cs[1..][k] == cs[k + 1]; }
        assert c !in cs[1..];
      }
    }
  }

  /** `cs` offers distinct live cells, and for each live cell of `pool` it leaves out it
      offers `n` others at least as stale. */
  ghost predicate Shortlist(m: CellMap, pool: set<CellId>, n: nat, cs: seq<Candidate>) {
    && (forall c :: c in cs ==> Describes(m, c))
    && DistinctCells(cs)
    && (forall id :: id in pool && Bumpable(m, id) && id !in Ids(cs) ==> NStalerThan(m, n, cs, m[id].ts))
  }

  ghost predicate NStalerThan(m: CellMap, n: nat, cs: seq<Candidate>, ts: Timestamp) {
    exists w: set<CellId> :: AllStaler(m, n, cs, ts, w)
  }

  ghost predicate AllStaler(m: CellMap, n: nat, cs: seq<Candidate>, ts: Timestamp, w: set<CellId>) {
    w <= Ids(cs) && |w| == n && forall id :: id in w ==> id in m && m[id].ts <= ts
  }

  lemma NStalerMonotone(m: CellMap, n: nat, a: seq<Candidate>, b: seq<Candidate>, ts: Timestamp)
    requires NStalerThan(m, n, a, ts) && Ids(a) <= Ids(b)
    ensures NStalerThan(m, n, b, ts)
  {
    var w: set<CellId> :| AllStaler(m, n, a, ts, w);
    assert AllStaler(m, n, b, ts, w);
  }

  /** Shortlists of disjoint pools concatenate to a shortlist of their union. */
  lemma ShortlistsConcat(m: CellMap, p: set<CellId>, q: set<CellId>, n: nat, a: seq<Candidate>, b: seq<Candidate>)
    requires Shortlist(m, p, n, a) && Shortlist(m, q, n, b)
    requires Ids(a) !! Ids(b)
    ensures Shortlist(m, p + q, n, a + b)
  {
    IdsConcat(a, b);
    forall i, j | 0 <= i < j < |a + b| ensures (a + b)[i].id != (a + b)[j].id {
      if i < |a| <= j {
        assert a[i].id in Ids(a) && b[j - |a|].id in Ids(b);
      }
    }
    forall id | id in p + q && Bumpable(m, id) && id !in Ids(a + b) ensures NStalerThan(m, n, a + b, m[id].ts) {
      if id in p { NStalerMonotone(m, n, a, a + b, m[id].ts); } else { NStalerMonotone(m, n, b, a + b, m[id].ts); }
    }
  }

  function Shortest(cs: seq<Candidate>, n: nat): (r: seq<Candidate>)
    ensures |r| <= n && |r| <= |cs| && r == cs[..|r|]
    ensures |r| < n ==> r == cs
  {
    if |cs| <= n then cs else cs[..n]
  }

  lemma IndexOf(cs: seq<Candidate>, id: CellId) returns (j: nat)
    requires id in Ids(cs)
    ensures j < |cs| && cs[j].id == id && cs[j] in cs
  {
    j :| 0 <= j < |cs| && cs[j].id == id;
  }

  lemma IdAt(cs: seq<Candidate>, j: nat)
    requires j < |cs|
    ensures cs[j].id in Ids(cs)
  {
  }

  lemma CutOff(cs: seq<Candidate>, n: nat, id: CellId) returns (j: nat)
    requires id in Ids(cs) && id !in Ids(Shortest(cs, n))
    ensures n <= j < |cs| && cs[j].id == id && cs[j] in cs
  {
    j := IndexOf(cs, id);
    var top := Shortest(cs, n);
    forall q | 0 <= q < |top| ensures cs[q].id in Ids(top) { IdAt(top, q); }
  }

  /** `n` cells no more recent than `ts` cannot all precede index `k < n`. */
  lemma NStalerReachPast(m: CellMap, n: nat, cs: seq<Candidate>, k: nat, ts: Timestamp)
    requires (forall c :: c in cs ==> c.id in m && m[c.id].ts == c.ts) && DistinctCells(cs) && Aged(cs)
    requires k < n && k < |cs| && NStalerThan(m, n, cs, ts)
    ensures |cs| >= n && cs[k].ts <= ts
  {
    var w: set<CellId> :| AllStaler(m, n, cs, ts, w);
    IdsOfDistinct(cs);
    SubsetSmaller(w, Ids(cs));
    if cs[k].ts > ts {
      var earlier := cs[..k];
      forall x | x in w ensures x in Ids(earlier) {
        var j := IndexOf(cs, x);
        assert cs[j].ts <= ts;
        IdAt(earlier, j);
      }
      IdsOfDistinct(earlier);
      SubsetSmaller(w, Ids(earlier));
    }
  }

  /** Whatever the first `n` leave out is at least as recent as each of them. */
  lemma LeftOutIsNewer(m: CellMap, n: nat, cs: seq<Candidate>, k: nat, id: CellId)
    requires Shortlist(m, m.Keys, n, cs) && Aged(cs) && k < n && k < |cs|
    requires Bumpable(m, id) && id !in Ids(Shortest(cs, n))
    ensures |cs| >= n && cs[k].ts <= m[id].ts
  {
    forall c | c in cs ensures c.id in m && m[c.id].ts == c.ts { assert Describes(m, c); }
    if id in Ids(cs) {
      var j := CutOff(cs, n, id);
      assert cs[k].ts <= cs[j].ts;
    } else {
      NStalerReachPast(m, n, cs, k, m[id].ts);
    }
  }

  lemma ShortShortlistIsComplete(m: CellMap, n: nat, cs: seq<Candidate>, id: CellId)
    requires Shortlist(m, m.Keys, n, cs) && |cs| < n && Bumpable(m, id)
    ensures id in Ids(cs)
  {
    if id !in Ids(cs) {
      var w: set<CellId> :| AllStaler(m, n, cs, m[id].ts, w);
      IdsOfDistinct(cs);
      SubsetSmaller(w, Ids(cs));
    }
  }

  /** Taking the first `n` of a shortlist sorted by age gives the `n` stalest of the pool. */
  lemma TruncatedShortlistIsStalest(m: CellMap, n: nat, cs: seq<Candidate>)
    requires Shortlist(m, m.Keys, n, cs) && Aged(cs)
    ensures AreStalest(m, n, Shortest(cs, n))
  {
    var top := Shortest(cs, n);
    forall id, c | Bumpable(m, id) && id !in Ids(top) && c in top ensures |top| == n && c.ts <= m[id].ts {
      var k :| 0 <= k < |top| && top[k] == c;
      LeftOutIsNewer(m, n, cs, k, id);
    }
    if |cs| < n {
      forall id | Bumpable(m, id) ensures id in Ids(cs) { ShortShortlistIsComplete(m, n, cs, id); }
    }
  }

  /** The `n` stalest of one table's live cells are a shortlist of it. */
  lemma PrefixIsShortlist(m: CellMap, pool: set<CellId>, n: nat, all: seq<Candidate>)
    requires (forall c :: c in all ==> Describes(m, c)) && DistinctCells(all) && Aged(all)
    requires forall id :: id in pool && Bumpable(m, id) ==> id in Ids(all)
    ensures Shortlist(m, pool, n, Shortest(all, n))
  {
    var cs := Shortest(all, n);
    forall id | id in pool && Bumpable(m, id) && id !in Ids(cs) ensures NStalerThan(m, n, cs, m[id].ts) {
      var j := CutOff(all, n, id);
      assert Describes(m, all[j]);
      FirstAreStaler(m, n, all, j);
    }
  }

  lemma FirstAreStaler(m: CellMap, n: nat, all: seq<Candidate>, j: nat)
    requires (forall c :: c in all ==> Describes(m, c)) && DistinctCells(all) && Aged(all)
    requires n <= j < |all|
    ensures NStalerThan(m, n, Shortest(all, n), all[j].ts)
  {
    var cs := Shortest(all, n);
    IdsOfDistinct(cs);
    forall x | x in Ids(cs) ensures x in m && m[x].ts <= all[j].ts {
      var k := IndexOf(cs, x);
      assert all[k] in all && Describes(m, all[k]) && all[k].ts <= all[j].ts;
    }
    assert AllStaler(m, n, cs, all[j].ts, Ids(cs));
  }

  /** Sorting a shortlist keeps it one. */
  lemma SortedShortlist(m: CellMap, pool: set<CellId>, n: nat, cs: seq<Candidate>)
    requires Shortlist(m, pool, n, cs)
    ensures Shortlist(m, pool, n, SortByAge(cs))
  {
    var r := SortByAge(cs);
    SortIsAged(cs);
    DistinctAfterSort(cs);
    SameIds(cs, r);
    forall id | id in pool && Bumpable(m, id) && id !in Ids(r) ensures NStalerThan(m, n, r, m[id].ts) {
      NStalerMonotone(m, n, cs, r, m[id].ts);
    }
  }

  lemma SameIds(a: seq<Candidate>, b: seq<Candidate>)
    requires forall c :: c in a <==> c in b
    ensures Ids(a) == Ids(b)
  {
    forall id ensures id in Ids(a) <==> id in Ids(b) {
      if id in Ids(a) { var j := IndexOf(a, id); IdOf(b, a[j]); }
      if id in Ids(b) { var j := IndexOf(b, id); IdOf(a, b[j]); }
    }
  }

  lemma IdOf(cs: seq<Candidate>, c: Candidate)
    requires c in cs
    ensures c.id in Ids(cs)
  {
    var j :| 0 <= j < |cs| && cs[j] == c;
    IdAt(cs, j);
  }

  /** Candidates of one table, decided from its own cells and the schema's marks. */
  predicate TableBumpable(table: CellMap, marks: Values, id: CellId) {
    && id in table
    && (id.col == ROW_DELETED || !RowDeleted(ValuesOf(table), id.table, id.row))
    && !Stale(marks, id, table[id].ts)
  }

  lemma SchemaHoldsTheMarks(s: Stores)
    requires Sorted(s)
    ensures SameMarks(ValuesOf(Flat(s)), ValuesOf(s.schema + s.registry))
  {
    forall id: CellId | MarksCutoff(id)
      ensures id in Flat(s) <==> id in s.schema + s.registry
      ensures id in Flat(s) ==> Flat(s)[id] == (s.schema + s.registry)[id]
    {
      FlatHolds(s, id);
    }
  }

  /** Looking at one table and the schema alone finds the bumpable cells of that table. */
  lemma TableBumpableIsBumpable(s: Stores, t: string, id: CellId)
    requires Sorted(s) && t in s.tables && id.table == t
    ensures TableBumpable(s.tables[t], ValuesOf(s.schema + s.registry), id) <==> Bumpable(Flat(s), id)
    ensures id in s.tables[t] <==> id in Flat(s)
    ensures id in s.tables[t] ==> s.tables[t][id] == Flat(s)[id]
  {
    hide Flat, Stale, SameMarks;
    FlatHolds(s, id);
    FlatHolds(s, CellId(t, id.row, ROW_DELETED));
    if id in Flat(s) {
      SchemaHoldsTheMarks(s);
      StaleFromMarks(ValuesOf(Flat(s)), ValuesOf(s.schema + s.registry), id, Flat(s)[id].ts);
    }
  }

  /** The stalest live cells of one table, oldest first. */
  method StalestOfTable(table: CellMap, marks: Values, n: nat) returns (cs: seq<Candidate>, ghost all: seq<Candidate>)
    ensures forall c :: c in all ==>
      TableBumpable(table, marks, c.id) && c == Candidate(c.id, table[c.id].value, table[c.id].ts)
    ensures forall id :: TableBumpable(table, marks, id) ==> id in Ids(all)
    ensures DistinctCells(all) && Aged(all) && cs == Shortest(all, n)
  {
    var eligible: seq<Candidate> := [];
    var rest := table.Keys;
    while rest != {}
      invariant rest <= table.Keys
      invariant forall c :: c in eligible ==>
        TableBumpable(table, marks, c.id) && c == Candidate(c.id, table[c.id].value, table[c.id].ts) && c.id !in rest
      invariant forall id :: TableBumpable(table, marks, id) && id !in rest ==> id in Ids(eligible)
      invariant DistinctCells(eligible)
    {
      var id :| id in rest;
      if TableBumpable(table, marks, id) {
        var c := Candidate(id, table[id].value, table[id].ts);
        IdsConcat(eligible, [c]);
        IdAt([c], 0);
        eligible := eligible + [c];
      }
      rest := rest - {id};
    }
    SortIsAged(eligible);
    DistinctAfterSort(eligible);
    SameIds(eligible, SortByAge(eligible));
    all := SortByAge(eligible);
    cs := Shortest(SortByAge(eligible), n);
  }

  /** Every cell of a system store is a candidate. */
  method ExportCandidates(store: CellMap) returns (cs: seq<Candidate>)
    ensures Exports(store, cs)
  {
    cs := [];
    var rest := store.Keys;
    while rest != {}
      invariant rest <= store.Keys
      invariant forall c :: c in cs ==> c.id in store && c == Candidate(c.id, store[c.id].value, store[c.id].ts)
      invariant Ids(cs) == store.Keys - rest
      invariant DistinctCells(cs)
    {
      var id :| id in rest;
      var c := Candidate(id, store[id].value, store[id].ts);
      IdsConcat(cs, [c]);
      assert Ids([c]) == {id} by { IdAt([c], 0); }
      forall i | 0 <= i < |cs| ensures cs[i].id != id { IdAt(cs, i); }
      cs := cs + [c];
      rest := rest - {id};
    }
  }

  /** A table's own selection is a shortlist of the table within the whole workspace. */
  lemma TableShortlist(s: Stores, t: string, n: nat, all: seq<Candidate>)
    requires Sorted(s) && t in s.tables
    requires forall c :: c in all ==>
      && TableBumpable(s.tables[t], ValuesOf(s.schema + s.registry), c.id)
      && c == Candidate(c.id, s.tables[t][c.id].value, s.tables[t][c.id].ts)
    requires forall id :: TableBumpable(s.tables[t], ValuesOf(s.schema + s.registry), id) ==> id in Ids(all)
    requires DistinctCells(all) && Aged(all)
    ensures Shortlist(Flat(s), s.tables[t].Keys, n, Shortest(all, n))
    ensures Ids(Shortest(all, n)) <= s.tables[t].Keys
  {
    forall c | c in all ensures Describes(Flat(s), c) {
      TableBumpableIsBumpable(s, t, c.id);
    }
    forall id | id in s.tables[t].Keys && Bumpable(Flat(s), id) ensures id in Ids(all) {
      TableBumpableIsBumpable(s, t, id);
    }
    PrefixIsShortlist(Flat(s), s.tables[t].Keys, n, all);
    forall id | id in Ids(Shortest(all, n)) ensures id in s.tables[t] {
      var j := IndexOf(Shortest(all, n), id);
      assert all[j] in all;
    }
  }

  lemma TableKeys(s: Stores, t: string)
    requires Sorted(s) && t in s.tables
    ensures forall id :: id in s.tables[t].Keys <==> id in Flat(s) && id.table == t
  {
    forall id ensures id in s.tables[t].Keys <==> id in Flat(s) && id.table == t {
      FlatHolds(s, id);
    }
  }

  /** The pool of the tables visited grows by one table's cells. */
  lemma PoolGrows(s: Stores, pool: set<CellId>, rest: set<string>, t: string)
    requires Sorted(s) && t in rest && rest <= s.tables.Keys
    requires forall id :: id in pool <==> id in Flat(s) && id.table in s.tables.Keys - rest
    ensures forall id :: id in pool + s.tables[t].Keys <==> id in Flat(s) && id.table in s.tables.Keys - (rest - {t})
  {
    TableKeys(s, t);
  }

  lemma ManagedHolds(s: Stores, k: Kind, id: CellId)
    requires Sorted(s) && k != DataTable
    ensures id in Managed(s, k) <==> id in Flat(s) && KindOf(id.table) == k
    ensures id in Managed(s, k) ==> Flat(s)[id] == Managed(s, k)[id]
  {
    FlatHolds(s, id);
  }

  /** `cs` is every cell of the tables of these kinds. */
  ghost predicate ListsKinds(m: CellMap, n: nat, cs: seq<Candidate>, kinds: set<Kind>) {
    Shortlist(m, Ids(cs), n, cs) && forall id :: id in Ids(cs) <==> id in m && KindOf(id.table) in kinds
  }

  lemma SystemStoreShortlist(s: Stores, k: Kind, n: nat, cs: seq<Candidate>)
    requires Sorted(s) && k != DataTable && Exports(Managed(s, k), cs)
    ensures ListsKinds(Flat(s), n, cs, {k})
  {
    forall id ensures id in Ids(cs) <==> id in Flat(s) && KindOf(id.table) in {k} { ManagedHolds(s, k, id); }
    forall c | c in cs ensures Describes(Flat(s), c) { ManagedHolds(s, k, c.id); }
  }

  lemma JoinKinds(m: CellMap, n: nat, a: seq<Candidate>, b: seq<Candidate>, ka: set<Kind>, kb: set<Kind>)
    requires ListsKinds(m, n, a, ka) && ListsKinds(m, n, b, kb) && ka !! kb
    ensures ListsKinds(m, n, a + b, ka + kb)
  {
    IdsConcat(a, b);
    ShortlistsConcat(m, Ids(a), Ids(b), n, a, b);
  }

  lemma SystemKinds()
    ensures forall t :: IsSystem(t) <==> KindOf(t) in {SchemaTable} + {RegistryTable} + {ViewsTable} + {HistoryTable}
  {
    forall t ensures IsSystem(t) <==> KindOf(t) in {SchemaTable} + {RegistryTable} + {ViewsTable} + {HistoryTable} {
      var k := KindOf(t);
      match k case SchemaTable => case RegistryTable => case ViewsTable => case HistoryTable => case DataTable =>
    }
  }

  /** The exports of the four managers together. */
  lemma SystemShortlist(s: Stores, s1: seq<Candidate>, s2: seq<Candidate>, s3: seq<Candidate>, s4: seq<Candidate>,
                        n: nat)
    requires Sorted(s)
    requires Exports(s.schema, s1) && Exports(s.registry, s2) && Exports(s.views, s3) && Exports(s.history, s4)
    ensures ListsKinds(Flat(s), n, s1 + s2 + s3 + s4, {SchemaTable} + {RegistryTable} + {ViewsTable} + {HistoryTable})
  {
    SystemStoreShortlist(s, SchemaTable, n, s1);
    SystemStoreShortlist(s, RegistryTable, n, s2);
    SystemStoreShortlist(s, ViewsTable, n, s3);
    SystemStoreShortlist(s, HistoryTable, n, s4);
    JoinKinds(Flat(s), n, s1, s2, {SchemaTable}, {RegistryTable});
    JoinKinds(Flat(s), n, s1 + s2, s3, {SchemaTable} + {RegistryTable}, {ViewsTable});
    JoinKinds(Flat(s), n, s1 + s2 + s3, s4, {SchemaTable} + {RegistryTable} + {ViewsTable}, {HistoryTable});
  }

  ghost predicate Exports(store: CellMap, cs: seq<Candidate>) {
    && (forall c :: c in cs ==> c.id in store && c == Candidate(c.id, store[c.id].value, store[c.id].ts))
    && Ids(cs) == store.Keys
    && DistinctCells(cs)
  }

  /** Data tables and managers share no cell, and together hold every cell. */
  lemma EveryCellIsPooled(s: Stores, pool: set<CellId>, n: nat, exported: seq<Candidate>)
    requires Sorted(s)
    requires forall id :: id in pool <==> id in Flat(s) && id.table in s.tables
    requires ListsKinds(Flat(s), n, exported, {SchemaTable} + {RegistryTable} + {ViewsTable} + {HistoryTable})
    ensures pool + Ids(exported) == Flat(s).Keys && pool !! Ids(exported)
  {
    SystemKinds();
    forall id | id in Flat(s) ensures id in pool + Ids(exported) { FlatHolds(s, id); }
  }
}
