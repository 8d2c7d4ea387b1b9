/** Opening the page again after a crash: what the room holds, and on top of it the outbox. */
module Outbox {
  import opened Cells
  import opened States
  import opened Stores
  import opened SendQueue
  import opened Workspaces

  /** Replay a saved outbox: every write is merged into the workspace as it was stamped, and
      queued again. */
  method RestorePendingUpdates(queue: SendQueue, ws: Workspace, values: seq<Update>) returns (count: nat)
    modifies queue, ws
    ensures count == |values|
    ensures queue.Model() ==
      if values == [] then old(queue.Model()) else Enqueued(old(queue.Model()), values, DEBOUNCE_MS)
    ensures ws.Parts() == RouteAll(old(ws.Parts()), values) && ws.clock == Latest(old(ws.clock), values)
    ensures old(ws.Valid()) && (forall u :: u in values ==> WellFormed(u))
      ==> ws.Valid() && ws.Model() == ApplyAll(old(ws.Model()), values)
  {
    count := |values|;
    ws.ApplyEach(values);
    queue.RestorePendingUpdates(values);
  }

  /** The cells of a page opened again: everything read from the room, then the outbox. */
  function Reopened(got: seq<Update>, values: seq<Update>): CellMap {
    PutAll(map[], got + values)
  }

  /** Whatever a device wrote before its page went down is held again once the page has read
      the room and replayed the outbox: the write itself or a newer one of its cell. */
  lemma ReopenedPageHoldsEveryWrite(worlds: seq<World>, steps: seq<Step>, values: seq<Update>, got: seq<Update>,
                                    u: Update)
    requires IsRun(worlds, steps) && u in worlds[|steps|].enqueued
    requires var w := worlds[|steps|];
      !w.q.up && Lists(w.q.mirror, values) && !Matched(w.rejected, u) && forall x :: x in w.server ==> x in got
    ensures u.id in Reopened(got, values) && Reopened(got, values)[u.id].ts >= u.cell.ts
  {
    NoWriteIsLost(worlds, steps, u);
    RunsKeep(worlds, steps);
    var w := worlds[|steps|];
    if Queued(w.q.mirror, u) {
      HeldAtLeast(got + values, w.q.mirror[u.id]);
    } else {
      var x :| x in w.server && x.id == u.id && x.cell.ts >= u.cell.ts;
      HeldAtLeast(got + values, x);
    }
  }

  lemma HeldAtLeast(us: seq<Update>, x: Update)
    requires x in us
    ensures x.id in PutAll(map[], us) && PutAll(map[], us)[x.id].ts >= x.cell.ts
  {
    MergeHoldsLatest(us, x.id);
  }

  /** And if nobody has written the cell since, it shows exactly that write's value. */
  lemma ReopenedPageShowsTheLastWrite(worlds: seq<World>, steps: seq<Step>, values: seq<Update>, got: seq<Update>,
                                      u: Update)
    requires IsRun(worlds, steps)
    requires var w := worlds[|steps|];
      && !w.q.up && Lists(w.q.mirror, values) && !Matched(w.rejected, u) && (forall x :: x in w.server ==> x in got)
      && IsLatest(w.enqueued + got, u.id, u) && u in w.enqueued && OneValuePerStamp(w.enqueued + got)
    ensures u.id in Reopened(got, values) && Reopened(got, values)[u.id].value == u.cell.value
    ensures Reopened(got, values)[u.id].ts == u.cell.ts
  {
    ReopenedPageHoldsEveryWrite(worlds, steps, values, got, u);
    RunsKeep(worlds, steps);
    var w, all := worlds[|steps|], worlds[|steps|].enqueued + got;
    MergeHoldsLatest(got + values, u.id);
    var held := Update(u.id, Reopened(got, values)[u.id]);
    assert u in all;
    if held in got {
      assert held in all;
    } else {
      var x :| x in w.enqueued && x.id == u.id && x.cell.ts == held.cell.ts && x.cell.value == held.cell.value;
      assert x in all;
    }
  }
}
