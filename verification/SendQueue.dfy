/** The coalescing send queue: a map of waiting writes, a task that flushes it, a mirror on disk. */
module SendQueue {
  import opened Cells

  // Between two awaits the task runs alone, so each step below is atomic: it changes the
  // queue and mirrors it before anything else can run.

  type Pending = map<CellId, Update>

  const DEBOUNCE_MS: nat := 300
  const MAX_BACKOFF_MS: nat := 8_000

  /** Keep the latest write of each cell. */
  function Merge(p: Pending, u: Update): Pending {
    if u.id in p && p[u.id].cell.ts >= u.cell.ts then p else p[u.id := u]
  }

  function MergeAll(p: Pending, us: seq<Update>): Pending {
    if us == [] then p else Merge(MergeAll(p, us[..|us| - 1]), us[|us| - 1])
  }

  /** Take a settled write out, unless a newer write of its cell has arrived meanwhile. */
  function Drop(p: Pending, u: Update): Pending {
    if u.id in p && p[u.id].cell.ts <= u.cell.ts then p - {u.id} else p
  }

  function DropAll(p: Pending, us: seq<Update>): Pending {
    if us == [] then p else Drop(DropAll(p, us[..|us| - 1]), us[|us| - 1])
  }

  /** The queue of one running page, and the mirror on disk that outlives it. */
  datatype Queue = Queue(up: bool, pending: Pending, mirror: Pending, flushing: bool, batch: Option<seq<Update>>,
                         backoff: nat)

  /** The queue with its surroundings: every batch ever sent, what the server has, what was
      ever enqueued, and what the server refused for good. */
  datatype World = World(q: Queue, sent: set<seq<Update>>, server: seq<Update>, enqueued: seq<Update>,
                         rejected: seq<Update>)

  const START: World := World(Queue(true, map[], map[], false, None, 0), {}, [], [], [])

  datatype Step =
    | Enqueue(us: seq<Update>, delay: nat)
    | Wake(values: seq<Update>)
    | Land(us: seq<Update>, ots: Timestamp)
    | Sent
    | Retry
    | Reject
    | Crash
    | Reopen(values: seq<Update>)

  function Min(a: nat, b: nat): nat { if a <= b then a else b }

  function Max(a: nat, b: nat): nat { if a >= b then a else b }

  /** `values` are the entries of the map, in some order. */
  ghost predicate Lists(p: Pending, values: seq<Update>) {
    && (forall u :: u in values <==> u.id in p && p[u.id] == u)
    && (forall i, j :: 0 <= i < j < |values| ==> values[i].id != values[j].id)
  }

  /** Start the flush task unless one is running. */
  function Scheduled(q: Queue, delay: nat): Queue {
    if q.flushing then q else q.(flushing := true, backoff := delay)
  }

  function Enqueued(q: Queue, us: seq<Update>, delay: nat): Queue {
    var p := MergeAll(q.pending, us);
    Scheduled(q.(pending := p, mirror := p), delay)
  }

  function Settled(q: Queue, us: seq<Update>): Queue {
    var p := DropAll(q.pending, us);
    q.(pending := p, mirror := p, batch := None, backoff := DEBOUNCE_MS)
  }

  function BackedOff(q: Queue): Queue {
    q.(batch := None, backoff := Min(Max(q.backoff, DEBOUNCE_MS) * 2, MAX_BACKOFF_MS))
  }

  /** The task wakes: with nothing queued it ends, otherwise it sends all there is. */
  function Woken(q: Queue, values: seq<Update>): Queue {
    if values == [] then q.(flushing := false) else q.(batch := Some(values))
  }

  /** A page that starts again replays the mirror into its queue. */
  function Restored(q: Queue, values: seq<Update>): Queue {
    var empty := Queue(true, map[], q.mirror, false, None, 0);
    if values == [] then empty else Enqueued(empty, values, DEBOUNCE_MS)
  }

  /** What may happen next.  A batch that was sent may land at any time after, once or more
      often: while it is awaited, after its send was given up, or after a crash. */
  ghost predicate Next(w: World, step: Step, x: World) {
    match step
    case Enqueue(us, delay) =>
      w.q.up && (delay == 0 || delay == DEBOUNCE_MS)
        && x == w.(q := Enqueued(w.q, us, delay), enqueued := w.enqueued + us)
    case Wake(values) =>
      w.q.up && w.q.flushing && w.q.batch.None? && Lists(w.q.pending, values)
      && x == w.(q := Woken(w.q, values), sent := if values == [] then w.sent else w.sent + {values})
    case Land(us, ots) =>
      us in w.sent && x == w.(server := w.server + Receive(us, ots))
    case Sent =>
      w.q.batch.Some? && Landed(w) && x == w.(q := Settled(w.q, w.q.batch.value))
    case Retry =>
      w.q.batch.Some? && x == w.(q := BackedOff(w.q))
    case Reject =>
      w.q.batch.Some? && x == w.(q := Settled(w.q, w.q.batch.value), rejected := w.rejected + w.q.batch.value)
    case Crash =>
      w.q.up && x == w.(q := Queue(false, map[], w.q.mirror, false, None, 0))
    case Reopen(values) =>
      !w.q.up && Lists(w.q.mirror, values) && x == w.(q := Restored(w.q, values))
  }

  /** The server has every write of the batch in flight. */
  ghost predicate Landed(w: World)
    requires w.q.batch.Some?
  {
    forall u :: u in w.q.batch.value ==> OnServer(w, u)
  }

  ghost predicate OnServer(w: World, u: Update) {
    exists s :: s in w.server && s.id == u.id && s.cell.ts == u.cell.ts && s.cell.value == u.cell.value
  }

  /** Some write of the same cell, at least as new, is in the list. */
  ghost predicate Matched(us: seq<Update>, u: Update) {
    exists x :: x in us && x.id == u.id && x.cell.ts >= u.cell.ts
  }

  predicate Queued(p: Pending, u: Update) {
    u.id in p && p[u.id].cell.ts >= u.cell.ts
  }

  /** The write, or a newer one of its cell, is waiting, on the server or refused. */
  ghost predicate Kept(w: World, u: Update) {
    Queued(w.q.mirror, u) || Matched(w.server, u) || Matched(w.rejected, u)
  }

  ghost predicate Comes(us: seq<Update>, from: seq<Update>) {
    forall u :: u in us ==> Came(u, from)
  }

  /** `u` is one of the writes, apart from the server's stamp. */
  ghost predicate Came(u: Update, from: seq<Update>) {
    exists x :: x in from && x.id == u.id && x.cell.ts == u.cell.ts && x.cell.value == u.cell.value
  }

  ghost predicate Invariant(w: World) {
    && (w.q.up ==> w.q.mirror == w.q.pending)
    && (w.q.up && w.q.pending != map[] ==> w.q.flushing)
    && (w.q.batch.Some? ==> w.q.up && w.q.flushing)
    && w.q.backoff <= MAX_BACKOFF_MS
    && (forall id :: id in w.q.mirror ==> w.q.mirror[id].id == id && Came(w.q.mirror[id], w.enqueued))
    && (w.q.batch.Some? ==> w.q.batch.value in w.sent)
    && (forall us :: us in w.sent ==> Comes(us, w.enqueued))
    && Comes(w.server, w.enqueued) && Comes(w.rejected, w.enqueued)
    && (forall u :: u in w.enqueued ==> Kept(w, u))
  }

  // ---- what merging and dropping do ----

  lemma {:induction false} MergeAllKeeps(p: Pending, us: seq<Update>, u: Update)
    ensures Queued(p, u) ==> Queued(MergeAll(p, us), u)
    ensures u in us ==> Queued(MergeAll(p, us), u)
  {
    if us != [] {
      MergeAllKeeps(p, us[..|us| - 1], u);
      assert us == us[..|us| - 1] + [us[|us| - 1]];
    }
  }

  lemma {:induction false} MergeAllComes(p: Pending, us: seq<Update>, id: CellId)
    requires forall k :: k in p ==> p[k].id == k
    ensures forall k :: k in MergeAll(p, us) ==> MergeAll(p, us)[k].id == k
    ensures id in MergeAll(p, us) ==> (id in p && MergeAll(p, us)[id] == p[id]) || MergeAll(p, us)[id] in us
  {
    if us != [] {
      MergeAllComes(p, us[..|us| - 1], id);
    }
  }

  lemma {:induction false} DropAllKeeps(p: Pending, us: seq<Update>, id: CellId)
    ensures id in DropAll(p, us) ==> id in p && DropAll(p, us)[id] == p[id]
    ensures id in p && id !in DropAll(p, us) ==> exists u :: u in us && u.id == id && p[id].cell.ts <= u.cell.ts
    ensures id in DropAll(p, us) ==> forall u :: u in us && u.id == id ==> u.cell.ts < p[id].cell.ts
  {
    if us != [] {
      DropAllKeeps(p, us[..|us| - 1], id);
      assert us == us[..|us| - 1] + [us[|us| - 1]];
    }
  }

  lemma {:induction false} MergeListed(us: seq<Update>)
    requires forall i, j :: 0 <= i < j < |us| ==> us[i].id != us[j].id
    ensures forall u :: u in us ==> u.id in MergeAll(map[], us) && MergeAll(map[], us)[u.id] == u
    ensures forall id :: id in MergeAll(map[], us) ==> exists u :: u in us && u.id == id
  {
    if us != [] {
      var n := |us| - 1;
      MergeListed(us[..n]);
      assert us == us[..n] + [us[n]];
    }
  }

  /** Replaying a mirror gives back the queue it mirrored. */
  lemma RestoringIsIdentity(p: Pending, values: seq<Update>)
    requires Lists(p, values) && forall id :: id in p ==> p[id].id == id
    ensures MergeAll(map[], values) == p
  {
    MergeListed(values);
    forall id ensures id in MergeAll(map[], values) <==> id in p
      ensures id in p ==> MergeAll(map[], values)[id] == p[id]
    {
      if id in p { assert p[id] in values; }
    }
  }

  /** A queued write gives way to a later one of its cell only; of two under one stamp the first
      stays. */
  lemma MergeMeans(p: Pending, u: Update, id: CellId)
    ensures id in Merge(p, u) <==> id in p || id == u.id
    ensures id in Merge(p, u) ==>
      Merge(p, u)[id] == if id == u.id && (id !in p || p[id].cell.ts < u.cell.ts) then u else p[id]
  {
  }

  /** A settled write leaves the queue unless a later one of its cell waits there. */
  lemma {:induction false} DropAllMeans(p: Pending, us: seq<Update>, id: CellId)
    ensures id in DropAll(p, us) <==> id in p && forall u :: u in us && u.id == id ==> u.cell.ts < p[id].cell.ts
    ensures id in DropAll(p, us) ==> DropAll(p, us)[id] == p[id]
  {
    if us != [] {
      DropAllMeans(p, us[..|us| - 1], id);
      assert forall u :: u in us <==> u in us[..|us| - 1] || u == us[|us| - 1];
    }
  }

  /** Enqueuing starts a flush with the delay given, or leaves the running one its own; the queue
      and its mirror change in step. */
  lemma EnqueueStarts(q: Queue, us: seq<Update>, delay: nat)
    ensures var x := Enqueued(q, us, delay);
      && x.flushing && x.backoff == (if q.flushing then q.backoff else delay)
      && x.mirror == x.pending && x.up == q.up && x.batch == q.batch
  {
  }

  /** A flush that finds nothing ends; any other sends the whole queue and takes nothing out. */
  lemma WakeSendsAll(q: Queue, values: seq<Update>)
    requires Lists(q.pending, values) && q.flushing && forall id :: id in q.pending ==> q.pending[id].id == id
    ensures var x := Woken(q, values);
      && x.pending == q.pending && x.mirror == q.mirror && x.backoff == q.backoff
      && (x.flushing <==> q.pending != map[])
      && (q.pending != map[] ==>
            x.batch.Some? && forall u :: u in x.batch.value <==> u.id in q.pending && q.pending[u.id] == u)
  {
    assert values != [] ==> values[0] in values;
    if q.pending != map[] {
      var id :| id in q.pending;
      assert q.pending[id] in values;
    }
  }

  function Retried(q: Queue, n: nat): Queue {
    if n == 0 then q else BackedOff(Retried(q, n - 1))
  }

  /** The delay before the next attempt: 300 ms at first and after every batch that settled,
      doubled by each failure in a row up to eight seconds. */
  lemma {:induction false} DelaysDouble(q: Queue, us: seq<Update>, n: nat)
    requires q.backoff <= 300
    ensures Settled(q, us).backoff == 300 && Enqueued(q.(flushing := false), us, DEBOUNCE_MS).backoff == 300
    ensures Retried(q, n).backoff ==
      if n == 0 then q.backoff
      else if n == 1 then 600 else if n == 2 then 1200 else if n == 3 then 2400 else if n == 4 then 4800 else 8000
  {
    if n > 0 { DelaysDouble(q, us, n - 1); }
  }

  // ---- every step keeps the invariant ----

  lemma CameLater(u: Update, from: seq<Update>, more: seq<Update>)
    requires Came(u, from)
    ensures Came(u, from + more)
  {
    var x :| x in from && x.id == u.id && x.cell.ts == u.cell.ts && x.cell.value == u.cell.value;
    assert x in from + more;
  }

  lemma EnqueueKeeps(w: World, us: seq<Update>, delay: nat, x: World)
    requires Invariant(w) && Next(w, Enqueue(us, delay), x)
    ensures Invariant(x)
  {
    forall id | id in x.q.mirror ensures x.q.mirror[id].id == id && Came(x.q.mirror[id], x.enqueued) {
      MergeAllComes(w.q.pending, us, id);
      if x.q.mirror[id] in us {
        assert x.q.mirror[id] in x.enqueued;
      } else {
        CameLater(w.q.mirror[id], w.enqueued, us);
      }
    }
    AllCameLater(w, us);
    forall u | u in x.enqueued ensures Kept(x, u) {
      MergeAllKeeps(w.q.pending, us, u);
      if u in w.enqueued { assert Kept(w, u); }
    }
  }

  lemma AllCameLater(w: World, us: seq<Update>)
    requires Invariant(w)
    ensures Comes(w.server, w.enqueued + us) && Comes(w.rejected, w.enqueued + us)
    ensures forall b :: b in w.sent ==> Comes(b, w.enqueued + us)
  {
    forall u | u in w.server ensures Came(u, w.enqueued + us) { CameLater(u, w.enqueued, us); }
    forall u | u in w.rejected ensures Came(u, w.enqueued + us) { CameLater(u, w.enqueued, us); }
    forall b, u | b in w.sent && u in b ensures Came(u, w.enqueued + us) { CameLater(u, w.enqueued, us); }
  }

  lemma ListedNothing(p: Pending, values: seq<Update>)
    requires Lists(p, values) && forall id :: id in p ==> p[id].id == id
    ensures values == [] ==> p == map[]
  {
    assert forall id :: id in p ==> p[id] in values;
  }

  lemma WakeKeeps(w: World, values: seq<Update>, x: World)
    requires Invariant(w) && Next(w, Wake(values), x)
    ensures Invariant(x)
  {
    ListedNothing(w.q.pending, values);
    forall u | u in values ensures Came(u, w.enqueued) { assert w.q.mirror[u.id] == u; }
    forall u | u in x.enqueued ensures Kept(x, u) { assert Kept(w, u); }
  }

  lemma MatchedLater(us: seq<Update>, more: seq<Update>, u: Update)
    requires Matched(us, u)
    ensures Matched(us + more, u)
  {
    var x :| x in us && x.id == u.id && x.cell.ts >= u.cell.ts;
    assert x in us + more;
  }

  lemma ReceivedCame(batch: seq<Update>, ots: Timestamp, from: seq<Update>, u: Update)
    requires Comes(batch, from) && u in Receive(batch, ots)
    ensures Came(u, from)
  {
    var i :| 0 <= i < |batch| && Receive(batch, ots)[i] == u;
    assert batch[i] in batch;
    var x :| x in from && x.id == batch[i].id && x.cell.ts == batch[i].cell.ts && x.cell.value == batch[i].cell.value;
  }

  lemma LandKeeps(w: World, batch: seq<Update>, ots: Timestamp, x: World)
    requires Invariant(w) && Next(w, Land(batch, ots), x)
    ensures Invariant(x)
  {
    forall u | u in x.server ensures Came(u, x.enqueued) {
      if u !in w.server { ReceivedCame(batch, ots, w.enqueued, u); }
    }
    forall u | u in x.enqueued ensures Kept(x, u) {
      assert Kept(w, u);
      if Matched(w.server, u) { MatchedLater(w.server, Receive(batch, ots), u); }
    }
  }

  lemma RetryKeeps(w: World, x: World)
    requires Invariant(w) && Next(w, Retry, x)
    ensures Invariant(x)
  {
    forall u | u in x.enqueued ensures Kept(x, u) { assert Kept(w, u); }
  }

  /** Dropping a settled batch leaves every write kept, if what was dropped is kept elsewhere. */
  lemma SettleKeeps(w: World, x: World, u: Update)
    requires Invariant(w) && w.q.batch.Some? && x.q == Settled(w.q, w.q.batch.value)
    requires x.server == w.server && x.enqueued == w.enqueued && u in w.enqueued
    requires forall b :: b in w.q.batch.value ==> Matched(x.server, b) || Matched(x.rejected, b)
    requires Matched(w.rejected, u) ==> Matched(x.rejected, u)
    ensures Kept(x, u)
  {
    assert Kept(w, u);
    var p, batch := w.q.pending, w.q.batch.value;
    if Queued(p, u) {
      DropAllKeeps(p, batch, u.id);
      if u.id !in DropAll(p, batch) {
        var b :| b in batch && b.id == u.id && p[u.id].cell.ts <= b.cell.ts;
        if Matched(x.server, b) { MatchedBelow(x.server, b, u); } else { MatchedBelow(x.rejected, b, u); }
      }
    }
  }

  lemma MatchedBelow(us: seq<Update>, b: Update, u: Update)
    requires Matched(us, b) && b.id == u.id && u.cell.ts <= b.cell.ts
    ensures Matched(us, u)
  {
    var x :| x in us && x.id == b.id && x.cell.ts >= b.cell.ts;
    assert x.id == u.id && x.cell.ts >= u.cell.ts;
  }

  lemma SettledMirrorCame(w: World, x: World)
    requires Invariant(w) && w.q.batch.Some? && x.q == Settled(w.q, w.q.batch.value) && x.enqueued == w.enqueued
    ensures forall id :: id in x.q.mirror ==> x.q.mirror[id].id == id && Came(x.q.mirror[id], x.enqueued)
    ensures x.q.up && x.q.flushing && x.q.mirror == x.q.pending
  {
    forall id | id in x.q.mirror ensures x.q.mirror[id].id == id && Came(x.q.mirror[id], x.enqueued) {
      DropAllKeeps(w.q.pending, w.q.batch.value, id);
    }
  }

  lemma SentKeeps(w: World, x: World)
    requires Invariant(w) && Next(w, Sent, x)
    ensures Invariant(x)
  {
    SettledMirrorCame(w, x);
    forall b | b in w.q.batch.value ensures Matched(x.server, b) {
      assert OnServer(w, b);
      var s :| s in w.server && s.id == b.id && s.cell.ts == b.cell.ts && s.cell.value == b.cell.value;
    }
    forall u | u in x.enqueued ensures Kept(x, u) { SettleKeeps(w, x, u); }
  }

  lemma RejectKeeps(w: World, x: World)
    requires Invariant(w) && Next(w, Reject, x)
    ensures Invariant(x)
  {
    SettledMirrorCame(w, x);
    forall b | b in w.q.batch.value ensures Matched(x.rejected, b) { assert b in x.rejected; }
    forall u | u in x.enqueued ensures Kept(x, u) {
      if Matched(w.rejected, u) { MatchedLater(w.rejected, w.q.batch.value, u); }
      SettleKeeps(w, x, u);
    }
  }

  lemma CrashKeeps(w: World, x: World)
    requires Invariant(w) && Next(w, Crash, x)
    ensures Invariant(x)
  {
    forall u | u in x.enqueued ensures Kept(x, u) { assert Kept(w, u); }
  }

  lemma ReopenKeeps(w: World, values: seq<Update>, x: World)
    requires Invariant(w) && Next(w, Reopen(values), x)
    ensures Invariant(x)
  {
    RestoringIsIdentity(w.q.mirror, values);
    ListedNothing(w.q.mirror, values);
    assert x.q.mirror == w.q.mirror;
    forall u | u in x.enqueued ensures Kept(x, u) { assert Kept(w, u); }
  }

  lemma StepKeeps(w: World, step: Step, x: World)
    requires Invariant(w) && Next(w, step, x)
    ensures Invariant(x)
  {
    match step
    case Enqueue(us, delay) => EnqueueKeeps(w, us, delay, x);
    case Wake(values) => WakeKeeps(w, values, x);
    case Land(us, ots) => LandKeeps(w, us, ots, x);
    case Sent => SentKeeps(w, x);
    case Retry => RetryKeeps(w, x);
    case Reject => RejectKeeps(w, x);
    case Crash => CrashKeeps(w, x);
    case Reopen(values) => ReopenKeeps(w, values, x);
  }

  ghost predicate IsRun(worlds: seq<World>, steps: seq<Step>) {
    && |worlds| == |steps| + 1 && worlds[0] == START
    && forall k :: 0 <= k < |steps| ==> Next(worlds[k], steps[k], worlds[k + 1])
  }

  lemma {:induction false} RunsKeep(worlds: seq<World>, steps: seq<Step>)
    requires IsRun(worlds, steps)
    ensures Invariant(worlds[|steps|])
  {
    if steps != [] {
      var n := |steps| - 1;
      RunsKeep(worlds[..n + 1], steps[..n]);
      assert Next(worlds[n], steps[n], worlds[n + 1]);
      StepKeeps(worlds[n], steps[n], worlds[n + 1]);
    }
  }

  /** No queued write is lost, over every interleaving of enqueueing, sending, landing (late,
      twice, or after a crash), retrying, rejection, crashing and restoring: the write or a
      newer one of its cell is waiting in the queue (or, while the page is down, in its
      mirror), on the server or refused; and a non-empty queue always has a flush running. */
  lemma NoWriteIsLost(worlds: seq<World>, steps: seq<Step>, u: Update)
    requires IsRun(worlds, steps) && u in worlds[|steps|].enqueued
    ensures var w := worlds[|steps|];
      && (Queued(if w.q.up then w.q.pending else w.q.mirror, u) || Matched(w.server, u) || Matched(w.rejected, u))
      && (w.q.up && w.q.pending != map[] ==> w.q.flushing)
      && w.q.backoff <= MAX_BACKOFF_MS
  {
    RunsKeep(worlds, steps);
    assert Kept(worlds[|steps|], u);
  }

  // ---- what the server ends up with ----

  /** Writes of one cell under one timestamp carry one value. */
  ghost predicate OneValuePerStamp(us: seq<Update>) {
    forall u, v :: u in us && v in us && u.id == v.id && u.cell.ts == v.cell.ts ==> u.cell.value == v.cell.value
  }

  /** The last write of `id`: no write of the cell is newer. */
  ghost predicate IsLatest(us: seq<Update>, id: CellId, u: Update) {
    u in us && u.id == id && forall v :: v in us && v.id == id ==> v.cell.ts <= u.cell.ts
  }

  lemma MergeHoldsLatest(us: seq<Update>, id: CellId)
    ensures id in PutAll(map[], us) <==> exists u :: u in us && u.id == id
    ensures id in PutAll(map[], us) ==> IsLatest(us, id, Update(id, PutAll(map[], us)[id]))
  {
    PutAllKeepsWinner(map[], us, id);
    var m := PutAll(map[], us);
    if u :| u in us && u.id == id {
      assert u == Update(id, u.cell) && Offered(map[], us, id, u.cell);
    }
    if id in m {
      forall v | v in us && v.id == id ensures v.cell.ts <= m[id].ts {
        assert v == Update(id, v.cell) && Offered(map[], us, id, v.cell);
        WinsOverIsRankOrder(m[id], v.cell);
      }
    }
  }

  /** A cell whose waiting writes have all gone out, none of them refused. */
  ghost predicate Drained(w: World, id: CellId) {
    id !in w.q.mirror && forall u :: u in w.rejected ==> u.id != id
  }

  /** Sending the queue's coalesced batches is as good as sending every write singly: once a
      cell has drained, the server's merge of it has the value that merging all enqueued
      writes gives. */
  lemma DrainedMeansSame(worlds: seq<World>, steps: seq<Step>, id: CellId)
    requires IsRun(worlds, steps) && Drained(worlds[|steps|], id)
    requires OneValuePerStamp(worlds[|steps|].enqueued)
    ensures var w := worlds[|steps|];
      var sent, all := PutAll(map[], w.server), PutAll(map[], w.enqueued);
      (id in sent <==> id in all) && (id in all ==> sent[id].value == all[id].value && sent[id].ts == all[id].ts)
  {
    var w := worlds[|steps|];
    RunsKeep(worlds, steps);
    MergeHoldsLatest(w.server, id);
    MergeHoldsLatest(w.enqueued, id);
    var sent, all := PutAll(map[], w.server), PutAll(map[], w.enqueued);
    if id in sent {
      assert Came(Update(id, sent[id]), w.enqueued);
    }
    if id in all {
      LatestWasSent(w, id, Update(id, all[id]));
      assert Came(Update(id, sent[id]), w.enqueued);
    }
  }

  lemma LatestWasSent(w: World, id: CellId, u: Update)
    requires Invariant(w) && Drained(w, id) && u in w.enqueued && u.id == id
    ensures exists s :: s in w.server && s.id == id && s.cell.ts >= u.cell.ts
  {
    assert Kept(w, u);
  }

  /** Left alone, the queue drains in one pass: wake, land, confirm. */
  lemma OnePassDrains(w: World, values: seq<Update>, ots: Timestamp, a: World, b: World, c: World)
    requires Invariant(w) && values != []
    requires Next(w, Wake(values), a) && Next(a, Land(values, ots), b)
    requires c == b.(q := Settled(b.q, values))
    ensures Next(b, Sent, c) && c.q.pending == map[]
  {
    forall u | u in values ensures OnServer(b, u) {
      var i :| 0 <= i < |values| && values[i] == u;
      assert Receive(values, ots)[i] in b.server;
    }
    forall id | id in w.q.pending ensures id !in DropAll(w.q.pending, values) {
      DropAllKeeps(w.q.pending, values, id);
      assert w.q.pending[id] in values;
    }
    forall id | id in DropAll(w.q.pending, values) ensures id in w.q.pending {
      DropAllKeeps(w.q.pending, values, id);
    }
  }

  // ---- exactly when a write is lost ----

  /** The write, or a newer one of its cell, is waiting or on the server. */
  ghost predicate Safe(w: World, u: Update) {
    Queued(w.q.mirror, u) || Matched(w.server, u)
  }

  /** A refusal of the batch in flight leaves the write safe: it, or a newer one, is on the
      server, or the queue holds a write of its cell newer than what was sent. */
  ghost predicate Survives(w: World, u: Update)
    requires w.q.batch.Some?
  {
    || Matched(w.server, u)
    || (Queued(w.q.pending, u)
        && forall b :: b in w.q.batch.value && b.id == u.id ==> b.cell.ts < w.q.pending[u.id].cell.ts)
  }

  /** A rejection loses exactly the writes that do not survive it. */
  lemma RejectLosesIff(w: World, x: World, u: Update)
    requires Invariant(w) && Next(w, Reject, x)
    ensures Safe(x, u) <==> Survives(w, u)
  {
    DropAllKeeps(w.q.pending, w.q.batch.value, u.id);
  }

  /** The step queues or lands the write, or a newer one of its cell. */
  ghost predicate Gains(step: Step, u: Update) {
    match step
    case Enqueue(us, _) => Matched(us, u)
    case Land(us, _) => Matched(us, u)
    case _ => false
  }

  ghost predicate Loses(w: World, step: Step, u: Update) {
    step.Reject? && w.q.batch.Some? && !Survives(w, u)
  }

  lemma ReceivedMatches(us: seq<Update>, ots: Timestamp, more: seq<Update>, u: Update)
    ensures Matched(us + Receive(more, ots), u) <==> Matched(us, u) || Matched(more, u)
  {
    if x :| x in more && x.id == u.id && x.cell.ts >= u.cell.ts {
      var i :| 0 <= i < |more| && more[i] == x;
      assert Receive(more, ots)[i] in us + Receive(more, ots);
    }
    if x :| x in us + Receive(more, ots) && x.id == u.id && x.cell.ts >= u.cell.ts {
      if x !in us {
        var i :| 0 <= i < |more| && Receive(more, ots)[i] == x;
        assert more[i] in more;
      }
    }
    if Matched(us, u) { MatchedLater(us, Receive(more, ots), u); }
  }

  lemma MergedMatches(p: Pending, us: seq<Update>, u: Update)
    requires forall id :: id in p ==> p[id].id == id
    ensures Queued(MergeAll(p, us), u) <==> Queued(p, u) || Matched(us, u)
  {
    MergeAllKeeps(p, us, u);
    MergeAllComes(p, us, u.id);
    if x :| x in us && x.id == u.id && x.cell.ts >= u.cell.ts { MergeAllKeeps(p, us, x); }
  }

  lemma SentStaysSafe(w: World, x: World, u: Update)
    requires Invariant(w) && Next(w, Sent, x)
    ensures Safe(x, u) <==> Safe(w, u)
  {
    DropAllKeeps(w.q.pending, w.q.batch.value, u.id);
    if Queued(w.q.pending, u) && !Queued(x.q.mirror, u) {
      var b :| b in w.q.batch.value && b.id == u.id && w.q.pending[u.id].cell.ts <= b.cell.ts;
      assert OnServer(w, b);
    }
  }

  /** What a step does to the safety of a write, for every kind of step. */
  lemma SafeAfterStepIff(w: World, step: Step, x: World, u: Update)
    requires Invariant(w) && Next(w, step, x)
    ensures Safe(x, u) <==> Gains(step, u) || (Safe(w, u) && !Loses(w, step, u))
  {
    match step
    case Enqueue(us, _) => MergedMatches(w.q.pending, us, u);
    case Land(us, ots) => ReceivedMatches(w.server, ots, us, u);
    case Sent => SentStaysSafe(w, x, u);
    case Reject => RejectLosesIff(w, x, u);
    case Reopen(values) =>
      RestoringIsIdentity(w.q.mirror, values);
      ListedNothing(w.q.mirror, values);
    case _ =>
  }

  /** Step `j` queued or landed the write, or a newer one, and no step from there to step `n`
      lost it. */
  ghost predicate SafeSince(worlds: seq<World>, steps: seq<Step>, j: nat, n: nat, u: Update)
    requires n <= |steps| <= |worlds|
  {
    j < n && Gains(steps[j], u) && forall k :: j < k < n ==> !Loses(worlds[k], steps[k], u)
  }

  lemma SafeSinceOneMore(worlds: seq<World>, steps: seq<Step>, n: nat, m: nat, u: Update)
    requires m == n + 1 && n < |steps| <= |worlds|
    ensures (exists j: nat :: SafeSince(worlds, steps, j, m, u)) <==>
      Gains(steps[n], u) || ((exists j: nat :: SafeSince(worlds, steps, j, n, u)) && !Loses(worlds[n], steps[n], u))
  {
    hide Gains, Loses;
    if Gains(steps[n], u) { assert SafeSince(worlds, steps, n, m, u); }
    if j: nat :| SafeSince(worlds, steps, j, n, u) && !Loses(worlds[n], steps[n], u) {
      assert SafeSince(worlds, steps, j, m, u);
    }
    if j: nat :| SafeSince(worlds, steps, j, m, u) && j < n {
      assert SafeSince(worlds, steps, j, n, u);
    }
  }

  lemma InvariantAt(worlds: seq<World>, steps: seq<Step>, n: nat)
    requires IsRun(worlds, steps) && n <= |steps|
    ensures Invariant(worlds[n])
  {
    RunsKeep(worlds[..n + 1], steps[..n]);
  }

  /** Over a whole run: the write is safe at the end exactly if no rejection has lost it since
      it, or a newer one of its cell, was last queued or landed. */
  lemma {:induction false} SafeAtEndIff(worlds: seq<World>, steps: seq<Step>, n: nat, u: Update)
    requires IsRun(worlds, steps) && n <= |steps|
    ensures Safe(worlds[n], u) <==> exists j: nat :: SafeSince(worlds, steps, j, n, u)
  {
    if n > 0 {
      InvariantAt(worlds, steps, n - 1);
      assert Next(worlds[n - 1], steps[n - 1], worlds[n]);
      hide Next, Invariant, Safe, Gains, Loses, IsRun, SafeSince;
      SafeAfterStepIff(worlds[n - 1], steps[n - 1], worlds[n], u);
      SafeAtEndIff(worlds, steps, n - 1, u);
      SafeSinceOneMore(worlds, steps, n - 1, n, u);
    }
  }

  lemma CoalescedAndDropped(u: Update, v: Update)
    requires u.id == v.id && u.cell.ts < v.cell.ts
    ensures MergeAll(map[], [u, v]) == map[u.id := v] && DropAll(map[u.id := v], [v]) == map[]
  {
    assert [u, v][..1] == [u] && [u][..0] == [] && [v][..0] == [];
    assert MergeAll(map[], [u]) == map[u.id := u];
  }

  /** A write that was coalesced away goes with the write that replaced it: if that one is
      refused, the older write reaches the server never, though it was not refused itself. */
  lemma SupersededThenRefused(id: CellId, x: Value, y: Value) returns (worlds: seq<World>, steps: seq<Step>)
    ensures IsRun(worlds, steps)
    ensures var w, u := worlds[|steps|], LocalUpdate(id, x, 1);
      u in w.enqueued && u !in w.rejected && !Queued(w.q.pending, u) && !Matched(w.server, u)
  {
    hide MergeAll, DropAll;
    var u, v := LocalUpdate(id, x, 1), LocalUpdate(id, y, 2);
    CoalescedAndDropped(u, v);
    var us, p, sent := [u, v], map[id := v], {[v]};
    var w1 := World(Queue(true, p, p, true, None, DEBOUNCE_MS), {}, [], us, []);
    var w2 := World(Queue(true, p, p, true, Some([v]), DEBOUNCE_MS), sent, [], us, []);
    var w3 := World(Queue(true, map[], map[], true, None, DEBOUNCE_MS), sent, [], us, [v]);
    assert [] + us == us && [] + [v] == [v] && {} + sent == sent;
    assert Next(START, Enqueue(us, DEBOUNCE_MS), w1);
    assert Next(w1, Wake([v]), w2);
    assert Next(w2, Reject, w3);
    worlds, steps := [START, w1, w2, w3], [Enqueue(us, DEBOUNCE_MS), Wake([v]), Reject];
  }

  // ---- the queue object ----

  datatype Outcome = WasSent | WasRetryable | WasRejected

  class SendQueue {
    var up: bool
    var pending: Pending
    var mirror: Pending
    var flushing: bool
    var batch: Option<seq<Update>>
    var backoff: nat

    function Model(): Queue
      reads this
    {
      Queue(up, pending, mirror, flushing, batch, backoff)
    }

    constructor ()
      ensures Model() == START.q
    {
      up, pending, mirror, flushing, batch, backoff := true, map[], map[], false, None, 0;
    }

    /** Insert a write, keeping the highest timestamp of the cell. */
    method MergePending(u: Update)
      modifies this`pending
      ensures pending == Merge(old(pending), u)
    {
      if u.id in pending && pending[u.id].cell.ts >= u.cell.ts {
      } else {
        pending := pending[u.id := u];
      }
    }

    /** Let the listener copy the queue to the mirror. */
    method NotifyQueueChanged()
      modifies this`mirror
      ensures mirror == pending
    {
      mirror := pending;
    }

    method ScheduleFlush(delay: nat)
      modifies this`flushing, this`backoff
      ensures Model() == Scheduled(old(Model()), delay)
    {
      if flushing { return; }
      flushing := true;
      backoff := delay;
    }

    method EnqueueWithDelay(us: seq<Update>, delay: nat)
      modifies this
      ensures Model() == Enqueued(old(Model()), us, delay)
    {
      for i := 0 to |us|
        invariant Model() == old(Model()).(pending := MergeAll(old(pending), us[..i]))
      {
        assert us[..i + 1][..i] == us[..i];
        MergePending(us[i]);
      }
      assert us[..|us|] == us;
      NotifyQueueChanged();
      ScheduleFlush(delay);
    }

    /** A cell edit: send it soon, together with what follows it. */
    method EnqueueUpdates(us: seq<Update>)
      modifies this
      ensures Model() == Enqueued(old(Model()), us, DEBOUNCE_MS)
    {
      EnqueueWithDelay(us, DEBOUNCE_MS);
    }

    /** A discrete operation: refused outright for a room that is not encrypted, otherwise
        queued like an edit and flushed at once. */
    method SendUpdates(us: seq<Update>, encrypted: bool) returns (ok: bool)
      modifies this
      ensures ok == encrypted
      ensures Model() == if encrypted && us != [] then Enqueued(old(Model()), us, 0) else old(Model())
    {
      if !encrypted { return false; }
      if us == [] { return true; }
      EnqueueWithDelay(us, 0);
      ok := true;
    }

    /** The entries of the queue, which stay in it. */
    method PendingUpdates() returns (values: seq<Update>)
      requires forall id :: id in pending ==> pending[id].id == id
      ensures Lists(pending, values)
    {
      values := [];
      var rest := pending.Keys;
      while rest != {}
        invariant rest <= pending.Keys
        invariant forall u :: u in values <==> u.id in pending && u.id !in rest && pending[u.id] == u
        invariant forall i, j :: 0 <= i < j < |values| ==> values[i].id != values[j].id
      {
        var id :| id in rest;
        forall i | 0 <= i < |values| ensures values[i].id != id { assert values[i] in values; }
        values := values + [pending[id]];
        rest := rest - {id};
      }
    }

    /** One turn of the flush task after its sleep: end, or snapshot what is queued. */
    method FlushWake() returns (values: seq<Update>)
      requires up && flushing && batch.None? && forall id :: id in pending ==> pending[id].id == id
      modifies this`flushing, this`batch
      ensures Lists(old(pending), values) && Model() == Woken(old(Model()), values)
    {
      values := PendingUpdates();
      if values == [] {
        flushing := false;
      } else {
        batch := Some(values);
      }
    }

    /** Remove what was settled, unless a newer write of the cell has come in. */
    method RemoveSettled(us: seq<Update>)
      modifies this`pending
      ensures pending == DropAll(old(pending), us)
    {
      for i := 0 to |us|
        invariant pending == DropAll(old(pending), us[..i])
      {
        assert us[..i + 1][..i] == us[..i];
        if us[i].id in pending && pending[us[i].id].cell.ts <= us[i].cell.ts {
          pending := pending - {us[i].id};
        }
      }
      assert us[..|us|] == us;
    }

    /** The rest of the turn, when the server's answer is known. */
    method FlushOutcome(outcome: Outcome)
      requires batch.Some?
      modifies this
      ensures Model() == if outcome == WasRetryable then BackedOff(old(Model()))
        else Settled(old(Model()), old(batch).value)
    {
      match outcome {
        case WasRetryable =>
          backoff := Min(Max(backoff, DEBOUNCE_MS) * 2, MAX_BACKOFF_MS);
        case _ =>
          RemoveSettled(batch.value);
          NotifyQueueChanged();
          backoff := DEBOUNCE_MS;
      }
      batch := None;
    }

    /** Replay the mirror of an earlier page into this page's queue. */
    method RestorePendingUpdates(values: seq<Update>)
      modifies this
      ensures Model() == if values == [] then old(Model()) else Enqueued(old(Model()), values, DEBOUNCE_MS)
    {
      if values != [] {
        EnqueueUpdates(values);
      }
    }
  }
}
