/** History and rollback, computed from the stream of cell updates. */
module History {
  import opened Cells
  import opened Order
  import opened Reads

  function ServerOrZero(u: Update): Timestamp {
    match u.cell.server case None => 0 case Some(t) => t
  }

  /** The merge of the updates the server had stamped by `target`. */
  function AsOf(events: seq<Update>, target: Timestamp): CellMap {
    if events == [] then map[]
    else
      var n := |events| - 1;
      var before := AsOf(events[..n], target);
      if ServerOrZero(events[n]) > target then before else Put(before, events[n])
  }

  method StateAsOf(events: seq<Update>, target: Timestamp) returns (winners: CellMap)
    ensures winners == AsOf(events, target)
  {
    winners := map[];
    for i := 0 to |events|
      invariant winners == AsOf(events[..i], target)
    {
      assert events[..i + 1][..i] == events[..i];
      var u := events[i];
      if ServerOrZero(u) <= target {
        if !(u.id in winners && !WinsOver(u.cell, winners[u.id])) {
          winners := winners[u.id := u.cell];
        }
      }
    }
    assert events[..|events|] == events;
  }

  function Within(events: seq<Update>, target: Timestamp): seq<Update> {
    if events == [] then []
    else
      var n := |events| - 1;
      Within(events[..n], target) + if ServerOrZero(events[n]) > target then [] else [events[n]]
  }

  /** The state at a point holds, for each cell, an update stamped by then that none
      stamped by then outranks. */
  lemma {:induction false} AsOfIsMergeOfWindow(events: seq<Update>, target: Timestamp)
    ensures AsOf(events, target) == PutAll(map[], Within(events, target))
    ensures forall u :: u in Within(events, target) <==> u in events && ServerOrZero(u) <= target
  {
    if events != [] {
      var n := |events| - 1;
      AsOfIsMergeOfWindow(events[..n], target);
      assert events == events[..n] + [events[n]];
      if ServerOrZero(events[n]) <= target {
        assert Within(events, target)[..|Within(events, target)| - 1] == Within(events[..n], target);
      } else {
        assert Within(events, target) == Within(events[..n], target);
      }
    }
  }

  // ---- rollback ----

  /** A cell's value, reading an absent cell as Null. */
  function ValueOf(m: CellMap, id: CellId): Value {
    if id in m then m[id].value else Null
  }

  /** What a rollback writes to a cell, if anything. */
  function Restoration(current: CellMap, asOf: CellMap, id: CellId): Option<Value> {
    if id in current then
      if id in asOf then (if current[id].value != asOf[id].value then Some(asOf[id].value) else None)
      else Some(Null)
    else if id in asOf && asOf[id].value != Null then Some(asOf[id].value) else None
  }

  function IdRank(id: CellId): Rank {
    [id.table, id.row, id.col]
  }

  /** `us` restores exactly the cells of `ids` that need it, in order, under consecutive
      stamps from `next` on. */
  ghost predicate Rollback(us: seq<Update>, current: CellMap, asOf: CellMap, ids: set<CellId>, next: Timestamp) {
    && (forall i :: 0 <= i < |us| ==> us[i].cell.ts == next + i && us[i].cell.server == None)
    && (forall i, j :: 0 <= i < j < |us| ==> Before(IdRank(us[i].id), IdRank(us[j].id)))
    && (forall u :: u in us ==> u.id in ids && Restoration(current, asOf, u.id) == Some(u.cell.value))
    && (forall id :: id in ids && Restoration(current, asOf, id).Some? ==> exists u :: u in us && u.id == id)
  }

  predicate IsFirst(ids: set<CellId>, x: CellId) {
    x in ids && forall y :: y in ids ==> !Before(IdRank(y), IdRank(x))
  }

  lemma FirstExists(ids: set<CellId>)
    requires ids != {}
    ensures exists x :: IsFirst(ids, x)
  {
    var rank := map id | id in ids :: IdRank(id);
    LeastExists(ids, rank);
    var x :| IsLeast(ids, rank, x);
    assert IsFirst(ids, x);
  }

  function ScopedIds(current: CellMap, asOf: CellMap, inScope: CellId -> bool): set<CellId> {
    set id | id in current.Keys + asOf.Keys && inScope(id)
  }

  lemma FirstIsBeforeTheRest(ids: set<CellId>, x: CellId, y: CellId)
    requires IsFirst(ids, x) && y in ids && y != x
    ensures Before(IdRank(x), IdRank(y))
  {
    BeforeIsStrictTotal(IdRank(x), IdRank(y));
    assert IdRank(x)[0] == x.table && IdRank(x)[1] == x.row && IdRank(x)[2] == x.col;
    assert IdRank(y)[0] == y.table && IdRank(y)[1] == y.row && IdRank(y)[2] == y.col;
  }

  /** The updates after one more cell, `id`, has been considered. */
  function Considered(us: seq<Update>, current: CellMap, asOf: CellMap, id: CellId, ts: Timestamp): seq<Update> {
    var restored := Restoration(current, asOf, id);
    if restored.Some? then us + [LocalUpdate(id, restored.value, ts)] else us
  }

  lemma RollbackExtends(us: seq<Update>, current: CellMap, asOf: CellMap, ids: set<CellId>, next: Timestamp, id: CellId)
    requires Rollback(us, current, asOf, ids, next) && next + |us| <= U64_MAX
    requires forall x :: x in ids ==> Before(IdRank(x), IdRank(id))
    ensures Rollback(Considered(us, current, asOf, id, next + |us|), current, asOf, ids + {id}, next)
  {
    var after := Considered(us, current, asOf, id, next + |us|);
    forall u | u in us ensures u in after {}
    if after != us {
      assert after[|us|].id == id && after[|us|] in after;
      forall i | 0 <= i < |us| ensures Before(IdRank(us[i].id), IdRank(id)) { assert us[i] in us; }
    }
  }

  predicate AscendingIds(order: seq<CellId>) {
    forall i, j :: 0 <= i < j < |order| ==> Before(IdRank(order[i]), IdRank(order[j]))
  }

  function Elements(order: seq<CellId>): set<CellId> {
    set x | x in order
  }

  method SortIds(ids: set<CellId>) returns (order: seq<CellId>)
    ensures forall x :: x in order <==> x in ids
    ensures AscendingIds(order)
    ensures |order| == |ids|
  {
    order := [];
    var rest := ids;
    while rest != {}
      invariant rest <= ids && |order| + |rest| == |ids|
      invariant forall x :: x in order <==> x in ids && x !in rest
      invariant AscendingIds(order)
      invariant forall i, y :: 0 <= i < |order| && y in rest ==> Before(IdRank(order[i]), IdRank(y))
    {
      FirstExists(rest);
      var id :| IsFirst(rest, id);
      forall y | y in rest - {id} ensures Before(IdRank(id), IdRank(y)) {
        FirstIsBeforeTheRest(rest, id, y);
      }
      order := order + [id];
      rest := rest - {id};
    }
  }

  lemma ScopedIdsCount(current: CellMap, asOf: CellMap, inScope: CellId -> bool)
    ensures |ScopedIds(current, asOf, inScope)| <= |current.Keys + asOf.Keys|
  {
    var ids, all := ScopedIds(current, asOf, inScope), current.Keys + asOf.Keys;
    assert all == ids + (all - ids);
  }

  lemma RollbackStep(us: seq<Update>, after: seq<Update>, current: CellMap, asOf: CellMap, order: seq<CellId>, k: nat,
                     next: Timestamp)
    requires k < |order| && AscendingIds(order) && next + |us| <= U64_MAX
    requires Rollback(us, current, asOf, Elements(order[..k]), next)
    requires after == Considered(us, current, asOf, order[k], next + |us|)
    ensures Rollback(after, current, asOf, Elements(order[..k + 1]), next)
  {
    var done := Elements(order[..k]);
    forall x | x in done ensures Before(IdRank(x), IdRank(order[k])) {
      var i :| 0 <= i < k && order[i] == x;
    }
    RollbackExtends(us, current, asOf, done, next, order[k]);
    assert order[..k + 1] == order[..k] + [order[k]];
    assert Elements(order[..k + 1]) == done + {order[k]};
  }

  lemma NothingRestored(current: CellMap, asOf: CellMap, order: seq<CellId>, next: Timestamp)
    requires order == []
    ensures Rollback([], current, asOf, Elements(order), next)
  {
  }

  method RestoreInOrder(current: CellMap, asOf: CellMap, order: seq<CellId>, next: Timestamp) returns (us: seq<Update>)
    requires AscendingIds(order) && next + |order| <= U64_MAX
    ensures Rollback(us, current, asOf, Elements(order), next) && |us| <= |order|
  {
    hide Rollback, AscendingIds, Restoration, Elements;
    NothingRestored(current, asOf, order[..0], next);
    var ts := next;
    us := [];
    for k := 0 to |order|
      invariant ts == next + |us| && |us| <= k
      invariant Rollback(us, current, asOf, Elements(order[..k]), next)
    {
      ghost var before := us;
      var restored := Restoration(current, asOf, order[k]);
      if restored.Some? {
        us := us + [LocalUpdate(order[k], restored.value, ts)];
        ts := ts + 1;
      }
      RollbackStep(before, us, current, asOf, order, k, next);
    }
    assert order[..|order|] == order;
  }

  method RollbackUpdates(current: CellMap, asOf: CellMap, inScope: CellId -> bool, next: Timestamp)
    returns (us: seq<Update>)
    requires next + |current.Keys + asOf.Keys| <= U64_MAX
    ensures Rollback(us, current, asOf, ScopedIds(current, asOf, inScope), next)
    ensures |us| <= |current.Keys + asOf.Keys|
  {
    hide Rollback, ScopedIds;
    ScopedIdsCount(current, asOf, inScope);
    var order := SortIds(ScopedIds(current, asOf, inScope));
    assert Elements(order) == ScopedIds(current, asOf, inScope);
    us := RestoreInOrder(current, asOf, order, next);
  }

  /** Rollback is exact: with stamps above everything held, applying it gives every cell in
      scope its value at the target point and leaves every other cell alone. */
  lemma RollbackIsExact(us: seq<Update>, current: CellMap, asOf: CellMap, inScope: CellId -> bool, next: Timestamp,
                        id: CellId)
    requires Rollback(us, current, asOf, ScopedIds(current, asOf, inScope), next)
    requires forall k :: k in current ==> current[k].ts < next
    ensures inScope(id) ==> ValueOf(PutAll(current, us), id) == ValueOf(asOf, id)
    ensures !inScope(id) ==>
      (id in PutAll(current, us) <==> id in current) && (id in current ==> PutAll(current, us)[id] == current[id])
  {
    var after := PutAll(current, us);
    PutAllKeepsWinner(current, us, id);
    if u :| u in us && u.id == id {
      assert u == Update(id, u.cell) && Offered(current, us, id, u.cell);
      WinsOverIsRankOrder(after[id], u.cell);
      assert Update(id, after[id]) in us;
    } else {
      if id in after { assert Offered(current, us, id, after[id]); }
      if id in current { assert Offered(current, us, id, current[id]); }
      assert id in after <==> id in current;
      assert id in current || id in asOf ==> (inScope(id) <==> id in ScopedIds(current, asOf, inScope));
    }
  }

  /** Nothing is sent without need: a cell that is there now and was at the point is sent only if
      its value has changed, one that is not there now only if it had a value. */
  lemma RestoresWhatDiffers(us: seq<Update>, current: CellMap, asOf: CellMap, ids: set<CellId>, next: Timestamp,
                            u: Update)
    requires Rollback(us, current, asOf, ids, next) && u in us
    ensures u.cell.value == if u.id in asOf then asOf[u.id].value else Null
    ensures u.id in current && u.id in asOf ==> current[u.id].value != u.cell.value
    ensures u.id !in current ==> u.id in asOf && u.cell.value != Null
  {
    assert Restoration(current, asOf, u.id) == Some(u.cell.value);
  }

  /** Rolling back to the same point again changes no value, yet is not empty: it re-sends
      Null to exactly the cells in scope that exist now and did not at the point. */
  lemma RollbackAgain(first: seq<Update>, again: seq<Update>, current: CellMap, asOf: CellMap, inScope: CellId -> bool,
                      next: Timestamp, next2: Timestamp)
    requires Rollback(first, current, asOf, ScopedIds(current, asOf, inScope), next)
    requires forall k :: k in current ==> current[k].ts < next
    requires Rollback(again, PutAll(current, first), asOf, ScopedIds(PutAll(current, first), asOf, inScope), next2)
    ensures forall u :: u in again ==> u.cell.value == Null && u.id !in asOf
    ensures forall id :: (exists u :: u in again && u.id == id) <==>
              inScope(id) && id in PutAll(current, first) && id !in asOf
  {
    var mid := PutAll(current, first);
    forall id | inScope(id)
      ensures Restoration(mid, asOf, id).Some? <==> id in mid && id !in asOf
      ensures Restoration(mid, asOf, id).Some? ==> Restoration(mid, asOf, id).value == Null
    {
      RollbackIsExact(first, current, asOf, inScope, next, id);
    }
  }

  /** The value every other device shows for each cell, Null for one the room has not seen. */
  function ConvergedValues(ids: seq<CellId>, events: seq<Update>): (r: seq<(CellId, Value)>)
    ensures |r| == |ids|
  {
    var winners := AsOf(events, U64_MAX);
    seq(|ids|, i requires 0 <= i < |ids| => (ids[i], ValueOf(winners, ids[i])))
  }

  lemma {:induction false} AsOfNoLimit(events: seq<Update>)
    ensures AsOf(events, U64_MAX) == PutAll(map[], events)
  {
    if events != [] {
      AsOfNoLimit(events[..|events| - 1]);
    }
  }

  /** The converged value of a cell is what replaying the whole timeline gives it: the value
      of an update no update of the cell outranks. */
  lemma ConvergedIsFullReplay(ids: seq<CellId>, events: seq<Update>, i: nat)
    requires i < |ids|
    ensures var (id, value) := ConvergedValues(ids, events)[i];
      && id == ids[i] && value == ValueOf(PutAll(map[], events), id)
      && ((forall u :: u in events ==> u.id != id) ==> value == Null)
      && ((exists u :: u in events && u.id == id) ==>
            exists w :: w in events && w.id == id && w.cell.value == value &&
              forall u :: u in events && u.id == id ==> WinsOver(w.cell, u.cell))
  {
    AsOfNoLimit(events);
    WinnerOf(events, ids[i]);
  }

  lemma WinnerOf(events: seq<Update>, id: CellId)
    ensures (forall u :: u in events ==> u.id != id) ==> id !in PutAll(map[], events)
    ensures (exists u :: u in events && u.id == id) ==>
      && id in PutAll(map[], events)
      && exists w :: w in events && w.id == id && w.cell == PutAll(map[], events)[id]
                     && forall u :: u in events && u.id == id ==> WinsOver(w.cell, u.cell)
  {
    PutAllKeepsWinner(map[], events, id);
    if u :| u in events && u.id == id {
      assert u == Update(id, u.cell) && Offered(map[], events, id, u.cell);
      var w := Update(id, PutAll(map[], events)[id]);
      assert w in events;
      forall v | v in events && v.id == id ensures WinsOver(w.cell, v.cell) {
        assert v == Update(id, v.cell) && Offered(map[], events, id, v.cell);
      }
    }
  }

  /** The state at a point: a cell is there if an update of it had reached the room by then, or
      has no time of the room yet, and it is one of these that none of them outranks. */
  lemma {:induction false} AsOfMeans(events: seq<Update>, target: Timestamp, id: CellId)
    ensures id in AsOf(events, target) <==>
      exists u :: u in events && u.id == id && (u.cell.server.None? || u.cell.server.value <= target)
    ensures id in AsOf(events, target) ==>
      var c := AsOf(events, target)[id];
      && Update(id, c) in events && (c.server.None? || c.server.value <= target)
      && forall u :: u in events && u.id == id && (u.cell.server.None? || u.cell.server.value <= target) ==>
           u.cell.ts < c.ts
           || (u.cell.ts == c.ts
               && (u.cell.server.None? || (c.server.Some? && u.cell.server.value <= c.server.value)))
  {
    if events != [] {
      var init, last := events[..|events| - 1], events[|events| - 1];
      AsOfMeans(init, target, id);
      assert forall u :: u in events <==> u in init || u == last;
      assert last == Update(last.id, last.cell);
    }
  }

  // ---- the record of a revert ----

  datatype RevertRecord = RevertRecord(id: string, actor: string, target: Timestamp, scope: string,
                                       caption: Option<string>)

  const REVERT_SPAN: nat := 5

  /** The history row a revert leaves, one stamp per cell. */
  function RecordRevert(r: RevertRecord, ts: Timestamp): seq<Update>
    requires ts + REVERT_SPAN <= U64_MAX
  {
    [LocalUpdate(CellId(HISTORY, r.id, "kind"), Str("revert"), ts),
     LocalUpdate(CellId(HISTORY, r.id, "actor"), Str(r.actor), ts + 1),
     LocalUpdate(CellId(HISTORY, r.id, "target"), Num(r.target), ts + 2),
     LocalUpdate(CellId(HISTORY, r.id, "scope"), Str(r.scope), ts + 3)]
    + (if r.caption.Some? then [LocalUpdate(CellId(HISTORY, r.id, "label"), Str(r.caption.value), ts + 4)] else [])
  }

  /** What the history row reads afterwards; nothing else changes. */
  lemma RecordReads(m: CellMap, r: RevertRecord, ts: Timestamp, id: CellId)
    requires ts + REVERT_SPAN <= U64_MAX && forall k :: k in m ==> m[k].ts < ts
    ensures var n := PutAll(m, RecordRevert(r, ts));
      if id.table == "_history" && id.row == r.id && id.col in {"kind", "actor", "target", "scope"} then
        id in n && n[id].value ==
          if id.col == "kind" then Str("revert")
          else if id.col == "actor" then Str(r.actor)
          else if id.col == "target" then Num(r.target) else Str(r.scope)
      else if id.table == "_history" && id.row == r.id && id.col == "label" && r.caption.Some? then
        id in n && n[id].value == Str(r.caption.value)
      else (id in n <==> id in m) && (id in m ==> n[id] == m[id])
  {
    hide PutAll;
    var us := RecordRevert(r, ts);
    if u :| u in us && u.id == id {
      FreshIsHeld(m, us, u);
    } else {
      assert us[0] in us && us[1] in us && us[2] in us && us[3] in us && (r.caption.Some? ==> us[4] in us);
      PutAllElsewhere(m, us, id);
    }
  }

  /** A row of the log, as it is listed. */
  function RevertRow(m: CellMap, id: string): Option<RevertRecord> {
    var text := col => if CellId(HISTORY, id, col) in m && m[CellId(HISTORY, id, col)].value.Str?
                       then Some(m[CellId(HISTORY, id, col)].value.s) else None;
    var target := CellId(HISTORY, id, "target");
    if text("kind") != Some("revert") then None
    else Some(RevertRecord(id, if text("actor").Some? then text("actor").value else "",
                           if target in m && AsU64(m[target].value).Some? then AsU64(m[target].value).value else 0,
                           if text("scope").Some? then text("scope").value else "*", text("label")))
  }

  /** Recording a revert and listing the log gives it back, next to the reverts already there. */
  lemma RecordRoundTrip(m: CellMap, r: RevertRecord, ts: Timestamp, other: string)
    requires ts + REVERT_SPAN <= U64_MAX && forall k :: k in m ==> m[k].ts < ts
    requires forall col :: CellId(HISTORY, r.id, col) !in m
    ensures var n := PutAll(m, RecordRevert(r, ts));
      RevertRow(n, r.id) == Some(r) && (other != r.id ==> RevertRow(n, other) == RevertRow(m, other))
  {
    hide PutAll, RecordRevert;
    forall row, col ensures var id, n := CellId(HISTORY, row, col), PutAll(m, RecordRevert(r, ts)); row != r.id ==>
      (id in n <==> id in m) && (id in m ==> n[id] == m[id])
    {
      RecordReads(m, r, ts, CellId(HISTORY, row, col));
    }
    RecordReads(m, r, ts, CellId(HISTORY, r.id, "kind"));
    RecordReads(m, r, ts, CellId(HISTORY, r.id, "actor"));
    RecordReads(m, r, ts, CellId(HISTORY, r.id, "target"));
    RecordReads(m, r, ts, CellId(HISTORY, r.id, "scope"));
    RecordReads(m, r, ts, CellId(HISTORY, r.id, "label"));
  }

  /** The cells a rollback of `scope` may touch: a table's data, its schema rows and its
      registry row; without a table, everything but the log of reverts. */
  predicate InScope(scope: Option<string>, id: CellId) {
    match scope
    case Some(t) =>
      || id.table == t
      || (id.table == SCHEMA && t + "." <= id.row)
      || (id.table == TABLES && id.row == t)
    case None => id.table != HISTORY
  }

  function Scope(scope: Option<string>): CellId -> bool {
    id => InScope(scope, id)
  }

  lemma {:induction false} AsOfBefore(events: seq<Update>, later: seq<Update>, point: Timestamp)
    requires forall u :: u in later ==> ServerOrZero(u) > point
    ensures AsOf(events + later, point) == AsOf(events, point)
  {
    if later == [] {
      assert events + later == events;
    } else {
      var n := |later| - 1;
      assert (events + later)[..|events + later| - 1] == events + later[..n];
      assert later[n] in later;
      AsOfBefore(events, later[..n], point);
    }
  }

  lemma {:induction false} AsOfAll(events: seq<Update>, p: Timestamp, q: Timestamp)
    requires forall u :: u in events ==> ServerOrZero(u) <= p && ServerOrZero(u) <= q
    ensures AsOf(events, p) == AsOf(events, q)
  {
    if events != [] {
      assert events[|events| - 1] in events;
      AsOfAll(events[..|events| - 1], p, q);
    }
  }

  lemma RollbackStaysInScope(us: seq<Update>, m: CellMap, asOf: CellMap, inScope: CellId -> bool, next: Timestamp,
                             id: CellId)
    requires Rollback(us, m, asOf, ScopedIds(m, asOf, inScope), next) && !inScope(id)
    ensures ValueOf(PutAll(m, us), id) == ValueOf(m, id)
  {
    forall u | u in us ensures u.id != id { }
    PutAllElsewhere(m, us, id);
  }

  /** Reverting a revert.  A rollback of `m` has reached the timeline after `point`; whatever
      the workspace holds by now, rolling it back to `point` gives every cell in scope the
      value it had before the first rollback, if that had reached the room, and leaves every
      other cell alone. */
  lemma RevertOfRevert(events: seq<Update>, m: CellMap, target: Timestamp, inScope: CellId -> bool, us: seq<Update>,
                       next: Timestamp, ots: Timestamp, point: Timestamp, now: CellMap, back: seq<Update>,
                       next2: Timestamp, id: CellId)
    requires point < ots && forall u :: u in events ==> ServerOrZero(u) <= point
    requires Rollback(us, m, AsOf(events, target), ScopedIds(m, AsOf(events, target), inScope), next)
    requires var asOf := AsOf(events + Receive(us, ots), point);
      Rollback(back, now, asOf, ScopedIds(now, asOf, inScope), next2)
    requires forall k :: k in now ==> now[k].ts < next2
    ensures inScope(id) && ValueOf(m, id) == ValueOf(AsOf(events, U64_MAX), id)
      ==> ValueOf(PutAll(now, back), id) == ValueOf(m, id)
    ensures !inScope(id) ==> ValueOf(PutAll(now, back), id) == ValueOf(now, id)
    ensures !inScope(id) && now == PutAll(m, us) ==> ValueOf(PutAll(now, back), id) == ValueOf(m, id)
  {
    AsOfBefore(events, Receive(us, ots), point);
    AsOfAll(events, point, U64_MAX);
    RollbackIsExact(back, now, AsOf(events, U64_MAX), inScope, next2, id);
    if !inScope(id) { RollbackStaysInScope(us, m, AsOf(events, target), inScope, next, id); }
  }

  // ---- the change log, and erasing bumps from history ----

  function LastValue(events: seq<Update>, id: CellId): Option<Value> {
    if events == [] then None
    else
      var n := |events| - 1;
      if events[n].id == id then Some(events[n].cell.value) else LastValue(events[..n], id)
  }

  datatype Edit = Edit(update: Update, prev: Option<Value>)

  /** The edits the change log shows, oldest first: every update that changes its cell. */
  function Edits(events: seq<Update>): seq<Edit> {
    if events == [] then []
    else
      var n := |events| - 1;
      var prev := LastValue(events[..n], events[n].id);
      Edits(events[..n]) + if prev == Some(events[n].cell.value) then [] else [Edit(events[n], prev)]
  }

  /** The update at index `i` is an edit: the latest update of its cell before it had another
      value, which is the value listed, or there was none. */
  ghost predicate IsEdit(events: seq<Update>, i: nat, e: Edit) {
    && i < |events| && events[i] == e.update
    && if e.prev.None? then forall k :: 0 <= k < i ==> events[k].id != e.update.id
       else e.prev.value != e.update.cell.value && exists k :: LastBefore(events, i, k, e.update.id)
                                                     && events[k].cell.value == e.prev.value
  }

  /** One update more adds itself to the end of the log if it is an edit, and nothing if not. */
  lemma ChangeLogGrows(events: seq<Update>, u: Update)
    ensures || (exists prev :: IsEdit(events + [u], |events|, Edit(u, prev))
                 && Edits(events + [u]) == Edits(events) + [Edit(u, prev)])
      || ((forall prev :: !IsEdit(events + [u], |events|, Edit(u, prev))) && Edits(events + [u]) == Edits(events))
  {
    var more, n := events + [u], |events|;
    assert more[..n] == events && Edits([]) == [];
    var prev := LastValue(events, u.id);
    LastValueMeans(events, u.id);
    assert forall k :: LastBefore(more, n, k, u.id) <==> LastBefore(events, n, k, u.id);
    forall k, j | LastBefore(more, n, k, u.id) && LastBefore(more, n, j, u.id) ensures k == j {}
    if prev == Some(u.cell.value) {
      forall p ensures !IsEdit(more, n, Edit(u, p)) { OneLastValue(more, n, u, p, prev); }
    } else {
      assert IsEdit(more, n, Edit(u, prev));
    }
  }

  lemma OneLastValue(more: seq<Update>, n: nat, u: Update, p: Option<Value>, prev: Option<Value>)
    requires n < |more| && more[n] == u && prev == Some(u.cell.value)
    requires exists k :: LastBefore(more, n, k, u.id) && more[k].cell.value == prev.value
    requires forall k, j :: LastBefore(more, n, k, u.id) && LastBefore(more, n, j, u.id) ==> k == j
    ensures !IsEdit(more, n, Edit(u, p))
  {
  }

  /** Index `k` holds the latest update of the cell before index `i`. */
  ghost predicate LastBefore(events: seq<Update>, i: int, k: int, id: CellId) {
    0 <= k < i <= |events| && events[k].id == id && forall j :: k < j < i ==> events[j].id != id
  }

  lemma {:induction false} LastValueMeans(events: seq<Update>, id: CellId)
    ensures LastValue(events, id).None? <==> forall k :: 0 <= k < |events| ==> events[k].id != id
    ensures LastValue(events, id).Some? ==>
      exists k :: LastBefore(events, |events|, k, id) && events[k].cell.value == LastValue(events, id).value
  {
    if events != [] {
      var n := |events| - 1;
      LastValueMeans(events[..n], id);
      if events[n].id == id {
        assert LastBefore(events, |events|, n, id);
      } else if LastValue(events[..n], id).Some? {
        var k :| LastBefore(events[..n], n, k, id) && events[..n][k].cell.value == LastValue(events[..n], id).value;
        assert LastBefore(events, |events|, k, id);
      }
    }
  }

  method ChangeLog(events: seq<Update>) returns (entries: seq<Edit>)
    ensures entries == Edits(events)
  {
    var last: map<CellId, Value> := map[];
    entries := [];
    for i := 0 to |events|
      invariant entries == Edits(events[..i])
      invariant forall id :: id in last <==> LastValue(events[..i], id).Some?
      invariant forall id :: id in last ==> LastValue(events[..i], id) == Some(last[id])
    {
      assert events[..i + 1][..i] == events[..i];
      var u := events[i];
      var prev := if u.id in last then Some(last[u.id]) else None;
      assert prev == LastValue(events[..i], u.id);
      if prev != Some(u.cell.value) {
        entries := entries + [Edit(u, prev)];
      }
      last := last[u.id := u.cell.value];
    }
    assert events[..|events|] == events;
  }

  /** The timeline without the updates that repeat their cell's previous value. */
  function EraseBumps(events: seq<Update>): seq<Update> {
    if events == [] then []
    else
      var n := |events| - 1;
      EraseBumps(events[..n]) +
      if LastValue(events[..n], events[n].id) == Some(events[n].cell.value) then [] else [events[n]]
  }

  /** One writer's timeline in order: server stamps never fall, and each later update of a
      cell carries a later timestamp. */
  ghost predicate SingleWriter(events: seq<Update>) {
    forall i, j :: 0 <= i < j < |events| ==>
      && ServerOrZero(events[i]) <= ServerOrZero(events[j])
      && (events[i].id == events[j].id ==> events[i].cell.ts < events[j].cell.ts)
  }

  lemma {:induction false} ErasingKeepsLastValue(events: seq<Update>, id: CellId)
    ensures LastValue(EraseBumps(events), id) == LastValue(events, id)
  {
    if events != [] {
      var n := |events| - 1;
      var e := EraseBumps(events);
      ErasingKeepsLastValue(events[..n], id);
      if LastValue(events[..n], events[n].id) == Some(events[n].cell.value) {
        assert e == EraseBumps(events[..n]);
      } else {
        assert e[..|e| - 1] == EraseBumps(events[..n]);
      }
    }
  }

  /** Erasing bumps leaves the change log as it was, edit for edit. */
  lemma {:induction false} ErasingKeepsTheChangeLog(events: seq<Update>)
    ensures Edits(EraseBumps(events)) == Edits(events)
  {
    if events != [] {
      var n := |events| - 1;
      var e := EraseBumps(events);
      ErasingKeepsTheChangeLog(events[..n]);
      ErasingKeepsLastValue(events[..n], events[n].id);
      if LastValue(events[..n], events[n].id) == Some(events[n].cell.value) {
        assert e == EraseBumps(events[..n]);
      } else {
        assert e[..|e| - 1] == EraseBumps(events[..n]);
      }
    }
  }

  lemma {:induction false} AsOfHoldsLastValue(events: seq<Update>, target: Timestamp, id: CellId)
    requires SingleWriter(events) && forall u :: u in events ==> ServerOrZero(u) <= target
    ensures id in AsOf(events, target) <==> LastValue(events, id).Some?
    ensures id in AsOf(events, target) ==> LastValue(events, id) == Some(AsOf(events, target)[id].value)
    ensures id in AsOf(events, target) ==> exists u :: u in events && u.id == id && u.cell == AsOf(events, target)[id]
  {
    if events != [] {
      var n := |events| - 1;
      assert events[n] in events;
      AsOfHoldsLastValue(events[..n], target, id);
      if events[n].id == id && id in AsOf(events[..n], target) {
        var u :| u in events[..n] && u.id == id && u.cell == AsOf(events[..n], target)[id];
        var i :| 0 <= i < n && events[i] == u;
      }
    }
  }

  /** A repeated write of the last value does not change what the merge reads. */
  lemma RepeatKeepsValue(init: seq<Update>, u: Update, target: Timestamp)
    requires SingleWriter(init + [u]) && ServerOrZero(u) <= target
    ensures u.id in AsOf(init, target) <==> LastValue(init, u.id).Some?
    ensures u.id in AsOf(init, target) ==>
      LastValue(init, u.id) == Some(AsOf(init, target)[u.id].value) && AsOf(init, target)[u.id].ts < u.cell.ts
  {
    var all := init + [u];
    forall v | v in init ensures ServerOrZero(v) <= target {
      var i :| 0 <= i < |init| && init[i] == v;
      assert all[i] == v && all[|init|] == u;
    }
    assert SingleWriter(init) by {
      forall i, j | 0 <= i < j < |init| ensures init[i] == all[i] && init[j] == all[j] {}
    }
    AsOfHoldsLastValue(init, target, u.id);
    if u.id in AsOf(init, target) {
      var v :| v in init && v.id == u.id && v.cell == AsOf(init, target)[u.id];
      var i :| 0 <= i < |init| && init[i] == v;
      assert all[i] == v && all[|init|] == u;
    }
  }

  ghost predicate SameValueAt(a: CellMap, b: CellMap, id: CellId) {
    (id in a <==> id in b) && (id in a ==> a[id].value == b[id].value && b[id].ts <= a[id].ts)
  }

  /** Erasing bumps preserves history: at every point in time the remaining updates give
      every cell the same value. */
  lemma {:induction false} ErasingKeepsEveryPoint(events: seq<Update>, target: Timestamp, id: CellId)
    requires SingleWriter(events)
    ensures SameValueAt(AsOf(events, target), AsOf(EraseBumps(events), target), id)
  {
    if events != [] {
      var n := |events| - 1;
      var init, u := events[..n], events[n];
      var e := EraseBumps(events);
      ErasingKeepsEveryPoint(init, target, id);
      assert events == init + [u];
      assert if LastValue(init, u.id) == Some(u.cell.value) then e == EraseBumps(init)
             else e[..|e| - 1] == EraseBumps(init) && e[|e| - 1] == u;
      if ServerOrZero(u) <= target {
        RepeatKeepsValue(init, u, target);
      }
    }
  }
}
