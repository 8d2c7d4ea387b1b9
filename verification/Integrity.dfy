/** Auditing local state against a full re-gather. */
module Integrity {
  import opened Cells

  function ServerOrZero(c: Cell): int {
    match c.server case None => 0 case Some(t) => t
  }

  /** The audit's own ordering: a missing server timestamp counts as zero. */
  predicate Newer(a: Cell, b: Cell) {
    a.ts > b.ts || (a.ts == b.ts && ServerOrZero(a) > ServerOrZero(b))
  }

  datatype Report = Report(checked: nat, missing: nat, stale: nat)

  predicate NeedsRepair(local: CellMap, u: Update) {
    u.id !in local || Newer(u.cell, local[u.id])
  }

  function Repairs(local: CellMap, server: seq<Update>): seq<Update> {
    if server == [] then []
    else
      Repairs(local, server[..|server| - 1]) +
      if NeedsRepair(local, server[|server| - 1]) then [server[|server| - 1]] else []
  }

  function Missing(local: CellMap, server: seq<Update>): nat {
    if server == [] then 0
    else Missing(local, server[..|server| - 1]) + if server[|server| - 1].id in local then 0 else 1
  }

  method IntegrityDiff(local: CellMap, server: seq<Update>) returns (r: Report, repairs: seq<Update>)
    ensures repairs == Repairs(local, server)
    ensures r.checked == |server| && r.missing == Missing(local, server) && r.missing + r.stale == |repairs|
  {
    repairs := [];
    var missing: nat, stale: nat := 0, 0;
    for i := 0 to |server|
      invariant repairs == Repairs(local, server[..i]) && missing == Missing(local, server[..i])
      invariant missing + stale == |repairs|
    {
      assert server[..i + 1][..i] == server[..i];
      var u := server[i];
      if u.id !in local {
        missing := missing + 1;
        repairs := repairs + [u];
      } else if Newer(u.cell, local[u.id]) {
        stale := stale + 1;
        repairs := repairs + [u];
      }
    }
    assert server[..|server|] == server;
    r := Report(|server|, missing, stale);
  }

  lemma {:induction false} RepairsAre(local: CellMap, server: seq<Update>, u: Update)
    ensures u in Repairs(local, server) <==> u in server && NeedsRepair(local, u)
  {
    if server != [] {
      var n := |server| - 1;
      RepairsAre(local, server[..n], u);
      assert server == server[..n] + [server[n]];
    }
  }

  /** Which cells of the server are repaired here: those missing, and those of which the server
      has a newer version, a missing server time counting as zero. */
  lemma RepairedIff(local: CellMap, server: seq<Update>, u: Update)
    ensures u in Repairs(local, server) <==>
      u in server && (u.id !in local ||
                      var c := local[u.id];
                      || u.cell.ts > c.ts
                      || (u.cell.ts == c.ts && u.cell.server.Some? && u.cell.server.value > 0
                          && (c.server.None? || u.cell.server.value > c.server.value)))
  {
    RepairsAre(local, server, u);
  }

  lemma NewerWins(a: Cell, b: Cell)
    ensures Newer(a, b) ==> WinsOver(a, b) && !WinsOver(b, a)
  {
  }

  ghost predicate OnePerCell(us: seq<Update>) {
    forall u, v :: u in us && v in us && u.id == v.id ==> u == v
  }

  /** The audit is one-directional and its repair exact: a cell the server holds in a newer
      version, or alone, becomes the server's; every other cell, unsent local writes
      included, stays as it was; and then the audit finds nothing. */
  lemma RepairIsExact(local: CellMap, server: seq<Update>, id: CellId)
    requires OnePerCell(server)
    ensures var n := PutAll(local, Repairs(local, server));
      && (forall u :: u in server && u.id == id && NeedsRepair(local, u) ==> id in n && n[id] == u.cell)
      && ((forall u :: u in server && u.id == id ==> !NeedsRepair(local, u))
        ==> (id in n <==> id in local) && (id in local ==> n[id] == local[id]))
      && (forall u :: u in server && u.id == id ==> !NeedsRepair(n, u))
  {
    var rs := Repairs(local, server);
    var n := PutAll(local, rs);
    PutAllKeepsWinner(local, rs, id);
    forall u ensures u in rs <==> u in server && NeedsRepair(local, u) { RepairsAre(local, server, u); }
    if id in local { assert Offered(local, rs, id, local[id]); }
    if u :| u in server && u.id == id && NeedsRepair(local, u) {
      assert u == Update(id, u.cell) && Offered(local, rs, id, u.cell);
      if Update(id, n[id]) !in rs {
        assert id in local && n[id] == local[id];
        NewerWins(u.cell, local[id]);
      }
    }
  }

  /** The audit reports nothing exactly if each cell of the server is matched by a local one
      at least as new. */
  lemma {:induction false} CleanIff(local: CellMap, server: seq<Update>)
    ensures Repairs(local, server) == [] <==> forall u :: u in server ==> u.id in local && !Newer(u.cell, local[u.id])
  {
    forall u
      ensures u in Repairs(local, server) <==> u in server && NeedsRepair(local, u)
    {
      RepairsAre(local, server, u);
    }
    if Repairs(local, server) != [] {
      var u := Repairs(local, server)[0];
      assert u in server && NeedsRepair(local, u);
    }
  }
}
