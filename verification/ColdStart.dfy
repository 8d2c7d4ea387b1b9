/** Materializing tables from a timeline that is fetched newest first, batch by batch. */
module ColdStart {
  import opened Cells

  type Tables = map<string, CellMap>

  function CellsOf(t: Tables): set<CellId> {
    set k, id | k in t && id in t[k] :: id
  }

  /** All cells of the tables as one map. */
  function Materialized(t: Tables): CellMap {
    map id | id in CellsOf(t) && id.table in t && id in t[id.table] :: t[id.table][id]
  }

  function Fed(t: Tables, u: Update): Tables {
    t[u.id.table := Put(if u.id.table in t then t[u.id.table] else map[], u)]
  }

  ghost predicate Sorted(t: Tables) {
    forall k, id :: k in t && id in t[k] ==> id.table == k
  }

  lemma HoldsAt(t: Tables, id: CellId)
    requires Sorted(t)
    ensures id in Materialized(t) <==> id.table in t && id in t[id.table]
    ensures id in Materialized(t) ==> Materialized(t)[id] == t[id.table][id]
  {
    if id.table in t && id in t[id.table] { assert id in CellsOf(t); }
  }

  lemma FedStaysSorted(t: Tables, u: Update)
    requires Sorted(t)
    ensures Sorted(Fed(t, u))
  {
  }

  lemma FedAt(t: Tables, u: Update, id: CellId)
    requires Sorted(t) && Sorted(Fed(t, u))
    ensures id in Materialized(Fed(t, u)) <==> id in Put(Materialized(t), u)
    ensures id in Materialized(Fed(t, u)) ==> Materialized(Fed(t, u))[id] == Put(Materialized(t), u)[id]
  {
    hide Materialized;
    HoldsAt(t, id);
    HoldsAt(t, u.id);
    HoldsAt(Fed(t, u), id);
  }

  lemma FedMerges(t: Tables, u: Update)
    requires Sorted(t)
    ensures Sorted(Fed(t, u)) && Materialized(Fed(t, u)) == Put(Materialized(t), u)
  {
    FedStaysSorted(t, u);
    hide Materialized, Put, Fed;
    forall id
      ensures id in Materialized(Fed(t, u)) <==> id in Put(Materialized(t), u)
      ensures id in Materialized(Fed(t, u)) ==> Materialized(Fed(t, u))[id] == Put(Materialized(t), u)[id]
    {
      FedAt(t, u, id);
    }
  }

  function IdsOf(us: seq<Update>): set<CellId> {
    set u | u in us :: u.id
  }

  lemma IdsOfMore(us: seq<Update>, u: Update)
    ensures IdsOf(us + [u]) == IdsOf(us) + {u.id}
  {
    assert u in us + [u];
    forall id | id in IdsOf(us) ensures id in IdsOf(us + [u]) {
      var v :| v in us && v.id == id;
      assert v in us + [u];
    }
  }

  lemma PutAllMore(us: seq<Update>, u: Update)
    ensures PutAll(map[], us + [u]) == Put(PutAll(map[], us), u)
  {
    assert (us + [u])[..|us|] == us;
  }

  /** One more update of a batch: whether the batch has held a new cell so far. */
  lemma StillNothingNew(held: seq<Update>, batch: seq<Update>, u: Update)
    ensures IdsOf(batch + [u]) <= IdsOf(held) <==> IdsOf(batch) <= IdsOf(held) && u.id in IdsOf(held)
    ensures IdsOf(batch) <= IdsOf(held) ==> (u.id in IdsOf(held + batch) <==> u.id in IdsOf(held))
  {
    IdsOfMore(batch, u);
    IdsOfBoth(held, batch);
  }

  class TimelinePaginator {
    var seen: map<CellId, Timestamp>
    var tables: Tables
    var processed: nat
    var skipped: nat
    ghost var fed: seq<Update>

    /** The tables are the merge of everything fed, and the counters say how many of the
        updates were the first of their cell. */
    ghost predicate Valid()
      reads this
    {
      && Sorted(tables) && Materialized(tables) == PutAll(map[], fed)
      && seen.Keys == IdsOf(fed)
      && processed == |seen.Keys| && processed + skipped == |fed|
    }

    constructor ()
      ensures Valid() && fed == []
    {
      seen, tables, processed, skipped, fed := map[], map[], 0, 0, [];
    }

    method ProcessUpdate(u: Update)
      requires Valid()
      modifies this
      ensures Valid() && fed == old(fed) + [u]
      ensures |seen.Keys| == |old(seen).Keys| + if u.id in IdsOf(old(fed)) then 0 else 1
    {
      hide Materialized, PutAll, Fed, IdsOf;
      FedMerges(tables, u);
      IdsOfMore(fed, u);
      PutAllMore(fed, u);
      tables := Fed(tables, u);
      fed := fed + [u];
      if u.id in seen {
        skipped := skipped + 1;
      } else {
        assert seen[u.id := u.cell.ts].Keys == seen.Keys + {u.id};
        seen := seen[u.id := u.cell.ts];
        processed := processed + 1;
      }
    }

    /** Feed a batch; the result says whether it held a cell not seen before. */
    method ProcessBatch(events: seq<Update>) returns (more: bool)
      requires Valid()
      modifies this
      ensures Valid() && fed == old(fed) + events
      ensures more <==> !(IdsOf(events) <= IdsOf(old(fed)))
    {
      hide Materialized, PutAll, IdsOf;
      var before := |seen.Keys|;
      NoIds();
      assert fed + events[..0] == fed;
      for i := 0 to |events|
        invariant Valid() && fed == old(fed) + events[..i]
        invariant before <= |seen.Keys| && (before == |seen.Keys| <==> IdsOf(events[..i]) <= IdsOf(old(fed)))
      {
        assert events[..i + 1] == events[..i] + [events[i]];
        StillNothingNew(old(fed), events[..i], events[i]);
        ProcessUpdate(events[i]);
        assert fed == old(fed) + events[..i + 1];
      }
      assert events[..|events|] == events;
      more := |seen.Keys| > before;
    }
  }

  lemma NoIds()
    ensures IdsOf([]) == {}
  {
  }

  lemma IdsOfBoth(a: seq<Update>, b: seq<Update>)
    ensures IdsOf(a + b) == IdsOf(a) + IdsOf(b)
  {
    forall id | id in IdsOf(a) + IdsOf(b) ensures id in IdsOf(a + b) {
      if id in IdsOf(a) {
        var u :| u in a && u.id == id;
        assert u in a + b;
      } else {
        var u :| u in b && u.id == id;
        assert u in a + b;
      }
    }
  }

  /** One batch with everything. */
  method MaterializeFromTimeline(events: seq<Update>) returns (tables: Tables, processed: nat, skipped: nat)
    ensures Sorted(tables) && Materialized(tables) == PutAll(map[], events)
    ensures processed == |IdsOf(events)| && processed + skipped == |events|
  {
    var p := new TimelinePaginator();
    var more := p.ProcessBatch(events);
    assert p.fed == events;
    return p.tables, p.processed, p.skipped;
  }

  // ---- stopping early ----

  /** Each cell's updates come newest first. */
  ghost predicate NewestFirst(us: seq<Update>) {
    forall i, j :: 0 <= i < j < |us| && us[i].id == us[j].id ==> us[i].cell.ts > us[j].cell.ts
  }

  /** Newest first, the first sighting of a cell is its value for good. */
  lemma FirstSightingIsFinal(walked: seq<Update>, rest: seq<Update>, id: CellId)
    requires NewestFirst(walked + rest) && id in IdsOf(walked)
    ensures id in PutAll(map[], walked) && id in PutAll(map[], walked + rest)
    ensures PutAll(map[], walked + rest)[id] == PutAll(map[], walked)[id]
  {
    var all := walked + rest;
    PutAllKeepsWinner(map[], walked, id);
    PutAllKeepsWinner(map[], all, id);
    var u :| u in walked && u.id == id;
    assert u == Update(id, u.cell) && Offered(map[], walked, id, u.cell);
    var won := Update(id, PutAll(map[], walked)[id]);
    assert won in walked && won in all && Offered(map[], all, id, won.cell);
    var best := Update(id, PutAll(map[], all)[id]);
    assert best in all && WinsOver(best.cell, won.cell);
    var i :| 0 <= i < |walked| && walked[i] == won;
    var j :| 0 <= j < |all| && all[j] == best;
    assert all[i] == won;
    WinsOverIsRankOrder(best.cell, won.cell);
    if j < |walked| {
      assert walked[j] == best && best in walked && Offered(map[], walked, id, best.cell);
      WinsOverIsRankOrder(won.cell, best.cell);
    }
  }

  /** Stopping after some batches is as good as reading on exactly if no deeper update is of
      a cell not yet seen: a batch without new cells does not show that by itself. */
  lemma StopIsCompleteIff(walked: seq<Update>, rest: seq<Update>)
    requires NewestFirst(walked + rest)
    ensures PutAll(map[], walked) == PutAll(map[], walked + rest) <==> IdsOf(rest) <= IdsOf(walked)
  {
    var a, b := PutAll(map[], walked), PutAll(map[], walked + rest);
    forall id
      ensures id in a <==> id in IdsOf(walked)
      ensures id in b <==> id in IdsOf(walked) + IdsOf(rest)
      ensures id in a ==> b[id] == a[id]
    {
      HeldIffOffered(walked, id);
      HeldIffOffered(walked + rest, id);
      IdsOfBoth(walked, rest);
      if id in a { FirstSightingIsFinal(walked, rest, id); }
    }
    if IdsOf(rest) <= IdsOf(walked) {
      assert forall id :: id in a <==> id in b;
    } else {
      var id :| id in IdsOf(rest) && id !in IdsOf(walked);
      assert id in b && id !in a;
    }
  }

  lemma HeldIffOffered(us: seq<Update>, id: CellId)
    ensures id in PutAll(map[], us) <==> id in IdsOf(us)
  {
    PutAllKeepsWinner(map[], us, id);
    if id in IdsOf(us) {
      var u :| u in us && u.id == id;
      assert u == Update(id, u.cell) && Offered(map[], us, id, u.cell);
    }
  }
}
