/** A single writer's timeline: each step emits one event's worth of updates. */
module Timeline {
  import opened Cells
  import opened Reads
  import opened States
  import opened Compaction

  // Two results about how far back a reader must look: writes re-emit every live cell
  // within a bounded number of events, and one re-bumped cell proves that everything live
  // has been re-emitted since.

  /** `Bumping` is a write with its bumps; `Plain` is any other local operation, such as a
      bulk import, a row deletion or a schema change. */
  datatype Step = Bumping(w: Write) | Plain(us: seq<Update>, clock: Timestamp)

  function Emitted(s: State, step: Step, size: Size): seq<Update> {
    match step
    case Bumping(w) => Batch(s, w, size)
    case Plain(us, _) => us
  }

  function After(s: State, step: Step, size: Size): State {
    match step
    case Bumping(w) => AfterWrite(s, w, size)
    case Plain(us, clock) => ApplyAll(s.(clock := clock), us)
  }

  ghost predicate Emits(us: seq<Update>, id: CellId) {
    exists u :: u in us && u.id == id
  }

  /** A cell that is live afterwards and was not emitted was live before: the step does not
      bring deleted data back. */
  ghost predicate RevivesNothing(s: State, step: Step, size: Size) {
    forall id :: Bumpable(After(s, step, size).cells, id) && !Emits(Emitted(s, step, size), id)
      ==> Bumpable(s.cells, id)
  }

  ghost predicate LegalStep(s: State, step: Step, size: Size) {
    && Consistent(s)
    && RevivesNothing(s, step, size)
    && match step
       case Bumping(w) => LegalWrite(s, w, size)
       case Plain(us, clock) =>
         && s.clock <= clock
         && DistinctIds(us)
         && (forall u :: u in us ==> WellFormed(u) && s.clock < u.cell.ts <= clock)
  }

  /** A step replaces exactly the cells it emits, under stamps past the old clock. */
  lemma StepReplaces(s: State, step: Step, size: Size)
    requires LegalStep(s, step, size)
    ensures var us, n := Emitted(s, step, size), After(s, step, size);
      && DistinctIds(us)
      && Consistent(n) && s.clock <= n.clock
      && (forall u :: u in us ==> s.clock < u.cell.ts <= n.clock)
      && (forall u :: u in us ==> u.id in n.cells && n.cells[u.id] == u.cell)
      && (forall id :: id in n.cells && !Emits(us, id) ==> id in s.cells && n.cells[id] == s.cells[id])
      && (forall id :: id in s.cells ==> id in n.cells)
  {
    match step
    case Bumping(w) =>
      BatchStamps(s, w, size);
      BatchDistinct(s, w, size);
      AfterWriteFacts(s, w, size);
      AfterWriteAt(s, w, size);
      assert UserUpdate(s, w) in Batch(s, w, size);
    case Plain(us, clock) =>
      var s1 := s.(clock := clock);
      ApplyAllFacts(s1, us);
      ApplyAllConsistent(s1, us);
      FreshBatchReplaces(s.cells, us, s.clock);
  }

  /** A write changes no value but the user's own cell's. */
  lemma OnlyTheUserCellChanges(s: State, w: Write, size: Size)
    requires LegalWrite(s, w, size)
    ensures var m, n := s.cells, AfterWrite(s, w, size).cells;
      && w.id in n && n[w.id].value == w.value
      && forall id :: id != w.id ==> (id in n <==> id in m) && (id in n ==> n[id].value == m[id].value)
  {
    var m, n := s.cells, AfterWrite(s, w, size).cells;
    var batch := Batch(s, w, size);
    AfterWriteAt(s, w, size);
    BumpsKeepValues(s, w, size);
    assert UserUpdate(s, w) == batch[0] && batch[0] in batch;
    forall id | id != w.id && id in n ensures n[id].value == m[id].value {
      if u :| u in batch && u.id == id {
        assert u in Bumps(s, w, size).0;
      }
    }
  }

  lemma StaysLiveBackwards(m: CellMap, n: CellMap, user: CellId, id: CellId)
    requires !IsSystem(user.table)
    requires forall k :: k != user ==> (k in n <==> k in m) && (k in n ==> n[k].value == m[k].value)
    requires user.col == ROW_DELETED && RowDeleted(ValuesOf(m), user.table, user.row)
      ==> Is(ValuesOf(n), user, Bool(true))
    requires Bumpable(n, id) && id in m && n[id] == m[id]
    ensures Bumpable(m, id)
  {
    assert SameMarks(ValuesOf(n), ValuesOf(m));
    StaleFromMarks(ValuesOf(n), ValuesOf(m), id, m[id].ts);
    var tomb := CellId(id.table, id.row, ROW_DELETED);
    if tomb != user {
      assert RowDeleted(ValuesOf(m), id.table, id.row) <==> RowDeleted(ValuesOf(n), id.table, id.row);
    }
  }

  /** A write brings nothing back unless it clears the tombstone of a deleted row. */
  lemma WritesReviveNothing(s: State, w: Write, size: Size)
    requires LegalWrite(s, w, size)
    requires w.id.col == ROW_DELETED && RowDeleted(ValuesOf(s.cells), w.id.table, w.id.row) ==> w.value == Bool(true)
    ensures RevivesNothing(s, Bumping(w), size)
  {
    var m, n := s.cells, AfterWrite(s, w, size).cells;
    var batch := Batch(s, w, size);
    AfterWriteAt(s, w, size);
    OnlyTheUserCellChanges(s, w, size);
    assert UserUpdate(s, w) == batch[0] && batch[0] in batch;
    forall id | Bumpable(n, id) && !Emits(batch, id) ensures Bumpable(m, id) {
      StaysLiveBackwards(m, n, w.id, id);
    }
  }

  /** The write takes the tombstone off a deleted row. */
  predicate ClearsTombstone(s: State, w: Write) {
    w.id.col == ROW_DELETED && RowDeleted(ValuesOf(s.cells), w.id.table, w.id.row) && w.value != Bool(true)
  }

  /** A cell of that row that is past no deletion cutoff. */
  ghost predicate HiddenByTombstone(s: State, w: Write, id: CellId) {
    && id in s.cells && id.table == w.id.table && id.row == w.id.row && id.col != ROW_DELETED
    && !Stale(ValuesOf(s.cells), id, s.cells[id].ts)
  }

  lemma ClearedRowComesBack(s: State, w: Write, size: Size, id: CellId)
    requires LegalWrite(s, w, size) && ClearsTombstone(s, w) && HiddenByTombstone(s, w, id)
    ensures Bumpable(AfterWrite(s, w, size).cells, id) && !Emits(Batch(s, w, size), id) && !Bumpable(s.cells, id)
  {
    var m, n := s.cells, AfterWrite(s, w, size).cells;
    assert CreatedBy(w.id) <= s.tables && !IsSystem(w.id.table);
    AfterWriteAt(s, w, size);
    OnlyTheUserCellChanges(s, w, size);
    BumpsKeepValues(s, w, size);
    forall u | u in Batch(s, w, size) ensures u.id != id {
      if u != UserUpdate(s, w) { assert u in Bumps(s, w, size).0; }
    }
    assert SameMarks(ValuesOf(m), ValuesOf(n));
    StaleFromMarks(ValuesOf(m), ValuesOf(n), id, m[id].ts);
    assert n[w.id].value == w.value;
  }

  lemma StaysLiveOutsideTheRow(m: CellMap, n: CellMap, user: CellId, id: CellId)
    requires !IsSystem(user.table)
    requires forall k :: k != user ==> (k in n <==> k in m) && (k in n ==> n[k].value == m[k].value)
    requires Bumpable(n, id) && id in m && n[id] == m[id]
    requires !(id.table == user.table && id.row == user.row && id.col != ROW_DELETED)
    ensures Bumpable(m, id)
  {
    assert SameMarks(ValuesOf(n), ValuesOf(m));
    StaleFromMarks(ValuesOf(n), ValuesOf(m), id, m[id].ts);
    var tomb := CellId(id.table, id.row, ROW_DELETED);
    assert tomb != user || id.col == ROW_DELETED;
  }

  /** A write brings cells back, unsent, exactly if it takes the tombstone off a deleted row
      that holds a cell past no cutoff: this is what bounded lookback must exclude. */
  lemma RevivesIff(s: State, w: Write, size: Size)
    requires LegalWrite(s, w, size)
    ensures RevivesNothing(s, Bumping(w), size)
      <==> !(ClearsTombstone(s, w) && exists id :: HiddenByTombstone(s, w, id))
  {
    if !ClearsTombstone(s, w) {
      WritesReviveNothing(s, w, size);
    } else if id :| HiddenByTombstone(s, w, id) {
      ClearedRowComesBack(s, w, size, id);
    } else {
      NothingHiddenRevivesNothing(s, w, size);
    }
  }

  lemma NothingHiddenRevivesNothing(s: State, w: Write, size: Size)
    requires LegalWrite(s, w, size) && forall id :: !HiddenByTombstone(s, w, id)
    ensures RevivesNothing(s, Bumping(w), size)
  {
    var m, n, batch := s.cells, AfterWrite(s, w, size).cells, Batch(s, w, size);
    assert CreatedBy(w.id) <= s.tables && !IsSystem(w.id.table);
    AfterWriteAt(s, w, size);
    OnlyTheUserCellChanges(s, w, size);
    assert UserUpdate(s, w) == batch[0] && batch[0] in batch;
    assert SameMarks(ValuesOf(n), ValuesOf(m));
    forall id | Bumpable(n, id) && !Emits(batch, id) ensures Bumpable(m, id) {
      StaleFromMarks(ValuesOf(n), ValuesOf(m), id, n[id].ts);
      assert !HiddenByTombstone(s, w, id);
      StaysLiveOutsideTheRow(m, n, w.id, id);
    }
  }

  // ---- runs ----

  /** States visited, steps taken and events emitted: `states[k]` takes `steps[k]`. */
  datatype Run = Run(states: seq<State>, steps: seq<Step>, events: seq<seq<Update>>)

  ghost predicate Takes(s: State, step: Step, us: seq<Update>, n: State, size: Size) {
    LegalStep(s, step, size) && us == Emitted(s, step, size) && n == After(s, step, size)
  }

  ghost predicate IsRun(r: Run, size: Size) {
    && |r.states| == |r.steps| + 1
    && |r.events| == |r.steps|
    && forall k :: 0 <= k < |r.steps| ==> Takes(r.states[k], r.steps[k], r.events[k], r.states[k + 1], size)
  }

  /** What a step does, without saying how. */
  ghost predicate Replaces(s: State, us: seq<Update>, n: State) {
    && DistinctIds(us)
    && Consistent(n) && s.clock <= n.clock
    && (forall u :: u in us ==> s.clock < u.cell.ts <= n.clock)
    && (forall u :: u in us ==> u.id in n.cells && n.cells[u.id] == u.cell)
    && (forall id :: id in n.cells && !Emits(us, id) ==> id in s.cells && n.cells[id] == s.cells[id])
    && (forall id :: id in s.cells ==> id in n.cells)
    && (forall id :: Bumpable(n.cells, id) && !Emits(us, id) ==> Bumpable(s.cells, id))
  }

  lemma EveryStepReplaces(r: Run, size: Size)
    requires IsRun(r, size)
    ensures forall k :: 0 <= k < |r.steps| ==> Replaces(r.states[k], r.events[k], r.states[k + 1])
  {
    forall k | 0 <= k < |r.steps| ensures Replaces(r.states[k], r.events[k], r.states[k + 1]) {
      assert Takes(r.states[k], r.steps[k], r.events[k], r.states[k + 1], size);
      StepReplaces(r.states[k], r.steps[k], size);
    }
  }

  ghost predicate EmittedWithin(r: Run, i: nat, l: nat, id: CellId)
    requires i <= l <= |r.events|
  {
    exists k :: i <= k < l && Emits(r.events[k], id)
  }

  ghost predicate IsTrail(r: Run) {
    && |r.states| == |r.events| + 1
    && forall k :: 0 <= k < |r.events| ==> Replaces(r.states[k], r.events[k], r.states[k + 1])
  }

  /** If `id` is held in `b` it is the same cell in `a`, live there if it is live in `b`. */
  ghost predicate CarriedOver(a: CellMap, b: CellMap, id: CellId) {
    id in b ==> id in a && a[id] == b[id] && (Bumpable(b, id) ==> Bumpable(a, id))
  }

  lemma CarriedOverTransitive(a: CellMap, b: CellMap, c: CellMap, id: CellId)
    requires CarriedOver(a, b, id) && CarriedOver(b, c, id)
    ensures CarriedOver(a, c, id)
  {
  }

  lemma NotEmittedIsCarriedOver(s: State, us: seq<Update>, n: State, id: CellId)
    requires Replaces(s, us, n) && !Emits(us, id)
    ensures CarriedOver(s.cells, n.cells, id)
  {
  }

  /** A cell not emitted over a stretch of the run is the same cell, and if it is live at
      the end it was live at the start. */
  lemma {:induction false} UntouchedOver(r: Run, i: nat, l: nat, id: CellId)
    requires IsTrail(r) && i <= l <= |r.events|
    ensures r.states[i].clock <= r.states[l].clock
    ensures !EmittedWithin(r, i, l, id) ==> CarriedOver(r.states[i].cells, r.states[l].cells, id)
    decreases l
  {
    if i < l {
      UntouchedOver(r, i, l - 1, id);
      var s, us, n := r.states[l - 1], r.events[l - 1], r.states[l];
      assert Replaces(s, us, n);
      if !EmittedWithin(r, i, l, id) {
        assert !Emits(us, id) && !EmittedWithin(r, i, l - 1, id);
        NotEmittedIsCarriedOver(s, us, n, id);
        CarriedOverTransitive(r.states[i].cells, s.cells, n.cells, id);
      }
    }
  }

  // ---- bounded lookback ----

  /** Live cells not re-emitted since the clock read `since`. */
  ghost function Waiting(s: State, since: Timestamp): set<CellId> {
    set id | id in BumpableCells(s.cells) && s.cells[id].ts <= since
  }

  /** Every bump of a held cell is at most `limit` bytes. */
  ghost predicate SizesWithin(s: State, size: Size, limit: nat) {
    forall id, ts: Timestamp :: id in s.cells ==> size(LocalUpdate(id, s.cells[id].value, ts)) <= limit
  }

  lemma NothingStartsWaiting(s: State, step: Step, size: Size, since: Timestamp)
    requires LegalStep(s, step, size) && since <= s.clock
    ensures forall id :: id in Waiting(After(s, step, size), since) ==>
      id in Waiting(s, since) && !Emits(Emitted(s, step, size), id)
  {
    StepReplaces(s, step, size);
  }

  /** The stalest live cell is always emitted: as a bump, or as the user's own write. */
  lemma StalestIsEmitted(s: State, w: Write, size: Size)
    requires LegalWrite(s, w, size) && SizesWithin(s, size, MAX_SOLO_BUMP_BYTES)
    requires w.cands != []
    ensures Emits(Batch(s, w, size), w.cands[0].id)
  {
    var first := UserUpdate(s, w);
    var batch := Batch(s, w, size);
    assert first in batch;
    if w.cands[0].id != w.id {
      var nu := NonUser(w.cands, w.id);
      assert nu[0] == w.cands[0] && Describes(s.cells, w.cands[0]);
      BumpsSomethingIff(w.cands, w.id, first.cell.ts, w.now, size);
      BumpsAreAPrefix(w.cands, w.id, first.cell.ts, w.now, 1, BUMP_BYTE_BUDGET, true, size);
      var us := Bumps(s, w, size).0;
      assert Carries(us[0], nu[0]) && us[0] == batch[1];
    }
  }

  ghost predicate ShrinksBy<T>(rate: nat, before: set<T>, after: set<T>) {
    after == {} || |after| + rate <= |before|
  }

  lemma BumpableIsHeld(m: CellMap, id: CellId)
    requires Bumpable(m, id)
    ensures id in m
  {
  }

  /** While a cell waits, so do the candidates that are staler. */
  lemma StalestWait(s: State, cs: seq<Candidate>, n: nat, since: Timestamp, id: CellId)
    requires AreStalest(s.cells, n, cs) && n > 0 && id in Waiting(s, since)
    ensures cs != [] && cs[0].id in Waiting(s, since)
    ensures id !in Ids(cs) ==> |cs| == n && Ids(cs) <= Waiting(s, since)
  {
    hide Bumpable;
    if id in Ids(cs) {
      var i :| 0 <= i < |cs| && cs[i].id == id;
      assert cs[i] in cs && cs[0] in cs && cs[0].ts <= cs[i].ts;
      BumpableIsHeld(s.cells, cs[0].id);
    } else {
      forall k | k in Ids(cs) ensures k in Waiting(s, since) {
        var i :| 0 <= i < |cs| && cs[i].id == k;
        assert cs[i] in cs;
        BumpableIsHeld(s.cells, k);
      }
      assert cs != [] && cs[0].id in Ids(cs);
    }
  }

  /** Each write strictly shrinks the set of live cells still waiting to be re-emitted. */
  lemma WaitingShrinks(s: State, w: Write, size: Size, since: Timestamp)
    requires LegalStep(s, Bumping(w), size) && SizesWithin(s, size, MAX_SOLO_BUMP_BYTES)
    requires since <= s.clock
    ensures ShrinksBy(1, Waiting(s, since), Waiting(AfterWrite(s, w, size), since))
  {
    hide Bumpable, RevivesNothing, AreStalest, Waiting, AfterWrite, Bumps;
    var before, after := Waiting(s, since), Waiting(After(s, Bumping(w), size), since);
    NothingStartsWaiting(s, Bumping(w), size, since);
    if after != {} {
      var id :| id in after;
      StalestWait(s, w.cands, BUMP_CELLS_PER_WRITE, since, id);
      StalestIsEmitted(s, w, size);
      assert after <= before - {w.cands[0].id};
      SubsetSmaller(after, before - {w.cands[0].id});
    }
  }

  /** With bumps of at most 256 bytes a write takes sixteen waiting cells, or all of them. */
  lemma WaitingShrinksBySixteen(s: State, w: Write, size: Size, since: Timestamp)
    requires LegalStep(s, Bumping(w), size) && SizesWithin(s, size, BUMP_BYTE_BUDGET / BUMP_CELLS_PER_WRITE)
    requires since <= s.clock
    ensures ShrinksBy(BUMP_CELLS_PER_WRITE, Waiting(s, since), Waiting(AfterWrite(s, w, size), since))
  {
    hide Bumpable, RevivesNothing, SizesWithin, Waiting, AfterWrite, Bumps;
    var before, after := Waiting(s, since), Waiting(After(s, Bumping(w), size), since);
    NothingStartsWaiting(s, Bumping(w), size, since);
    forall k | k in Ids(w.cands) ensures k !in after {
      var i :| 0 <= i < |w.cands| && w.cands[i].id == k;
      AllCandidatesEmitted(s, w, size, w.cands[i]);
    }
    if after != {} {
      var id :| id in after;
      StalestWait(s, w.cands, BUMP_CELLS_PER_WRITE, since, id);
      IdsOfDistinct(w.cands);
      assert after <= before - Ids(w.cands);
      SubsetSmaller(after, before - Ids(w.cands));
    }
  }

  lemma CandidatesAreSmall(s: State, w: Write, size: Size)
    requires LegalWrite(s, w, size) && SizesWithin(s, size, BUMP_BYTE_BUDGET / BUMP_CELLS_PER_WRITE)
    ensures forall d, ts: Timestamp :: d in w.cands ==> size(LocalUpdate(d.id, d.value, ts)) <= 256
  {
    forall d, ts: Timestamp | d in w.cands ensures size(LocalUpdate(d.id, d.value, ts)) <= 256 {
      assert Describes(s.cells, d);
    }
  }

  lemma AllCandidatesEmitted(s: State, w: Write, size: Size, c: Candidate)
    requires LegalWrite(s, w, size) && SizesWithin(s, size, BUMP_BYTE_BUDGET / BUMP_CELLS_PER_WRITE)
    requires c in w.cands
    ensures Emits(Batch(s, w, size), c.id)
  {
    hide BumpLoop, Bumpable, NonUser, Consistent, SizesWithin;
    var first := UserUpdate(s, w);
    if c.id == w.id {
      assert first == Batch(s, w, size)[0];
    } else {
      CandidatesAreSmall(s, w, size);
      SmallBumpsAllFit(w.cands, w.id, first.cell.ts, w.now, 1, BUMP_BYTE_BUDGET, true, size, 256);
      BumpsAreAPrefix(w.cands, w.id, first.cell.ts, w.now, 1, BUMP_BYTE_BUDGET, true, size);
      NonUserSorted(w.cands, w.id);
      var nu, us := NonUser(w.cands, w.id), Bumps(s, w, size).0;
      var i :| 0 <= i < |nu| && nu[i] == c;
      assert Carries(us[i], nu[i]);
      BumpIsEmitted(s, w, size, us[i]);
    }
  }

  lemma BumpIsEmitted(s: State, w: Write, size: Size, u: Update)
    requires u in Bumps(s, w, size).0
    ensures Emits(Batch(s, w, size), u.id)
  {
    assert u in Batch(s, w, size);
  }

  lemma ShrinkFurther<T>(rate: nat, n: nat, a: set<T>, b: set<T>, c: set<T>)
    requires ShrinksBy(rate * n, a, b)
    ensures ShrinksBy(rate, b, c) ==> ShrinksBy(rate * (n + 1), a, c)
    ensures c <= b ==> ShrinksBy(rate * n, a, c)
  {
    assert rate * (n + 1) == rate * n + rate;
    if c <= b { assert b == c + (b - c); }
  }

  /** How many waiting cells a write takes at least, by the size of the bumps. */
  function Rate(limit: nat): nat {
    if limit <= BUMP_BYTE_BUDGET / BUMP_CELLS_PER_WRITE then BUMP_CELLS_PER_WRITE else 1
  }

  lemma WriteShrinks(s: State, w: Write, size: Size, limit: nat, since: Timestamp)
    requires LegalStep(s, Bumping(w), size) && since <= s.clock
    requires limit <= MAX_SOLO_BUMP_BYTES && SizesWithin(s, size, limit)
    ensures ShrinksBy(Rate(limit), Waiting(s, since), Waiting(AfterWrite(s, w, size), since))
  {
    hide LegalStep, ShrinksBy, Waiting;
    if limit <= BUMP_BYTE_BUDGET / BUMP_CELLS_PER_WRITE {
      WaitingShrinksBySixteen(s, w, size, since);
    } else {
      WaitingShrinks(s, w, size, since);
    }
  }

  /** The writes among the steps of a stretch. */
  function WritesIn(r: Run, from: nat, upto: nat): nat
    requires from <= upto <= |r.steps|
    decreases upto
  {
    if from == upto then 0 else WritesIn(r, from, upto - 1) + if r.steps[upto - 1].Bumping? then 1 else 0
  }

  ghost predicate WritesWithin(r: Run, from: nat, upto: nat, size: Size, limit: nat)
    requires upto <= |r.steps| && |r.states| == |r.steps| + 1
  {
    forall k :: from <= k < upto && r.steps[k].Bumping? ==> SizesWithin(r.states[k], size, limit)
  }

  /** Over any stretch of a run the live cells still waiting since its start shrink by one for
      every write in it, if no bump exceeds 32 KiB, and by sixteen with bumps of at most 256
      bytes; other steps add none. */
  lemma {:induction false} BoundedLookback(r: Run, from: nat, upto: nat, size: Size, limit: nat)
    requires IsRun(r, size) && from <= upto <= |r.steps| && limit <= MAX_SOLO_BUMP_BYTES
    requires WritesWithin(r, from, upto, size, limit)
    ensures var since := r.states[from].clock;
      ShrinksBy(Rate(limit) * WritesIn(r, from, upto), Waiting(r.states[from], since), Waiting(r.states[upto], since))
    decreases upto
  {
    hide Waiting, Takes, SizesWithin, Rate;
    if from < upto {
      var k, since := upto - 1, r.states[from].clock;
      BoundedLookback(r, from, k, size, limit);
      ClockStays(r, from, k, size);
      StepShrinks(r, k, size, limit, since);
      ShrinkFurther(Rate(limit), WritesIn(r, from, k), Waiting(r.states[from], since), Waiting(r.states[k], since),
        Waiting(r.states[upto], since));
    }
  }

  lemma ClockStays(r: Run, from: nat, k: nat, size: Size)
    requires IsRun(r, size) && from <= k <= |r.steps|
    ensures r.states[from].clock <= r.states[k].clock
  {
    EveryStepReplaces(r, size);
    UntouchedOver(r, from, k, CellId("", "", ""));
  }

  lemma StepShrinks(r: Run, k: nat, size: Size, limit: nat, since: Timestamp)
    requires IsRun(r, size) && k < |r.steps| && since <= r.states[k].clock && limit <= MAX_SOLO_BUMP_BYTES
    requires r.steps[k].Bumping? ==> SizesWithin(r.states[k], size, limit)
    ensures var before, after := Waiting(r.states[k], since), Waiting(r.states[k + 1], since);
      if r.steps[k].Bumping? then ShrinksBy(Rate(limit), before, after) else after <= before
  {
    hide Waiting, ShrinksBy, SizesWithin;
    assert Takes(r.states[k], r.steps[k], r.events[k], r.states[k + 1], size);
    NothingStartsWaiting(r.states[k], r.steps[k], size, since);
    if r.steps[k].Bumping? { WriteShrinks(r.states[k], r.steps[k].w, size, limit, since); }
  }

  /** Nothing left waiting means everything live was emitted in the stretch. */
  lemma NoneWaitingMeansAllEmitted(r: Run, from: nat, upto: nat)
    requires IsTrail(r) && from <= upto <= |r.events| && ClockCovers(r.states[from])
    requires Waiting(r.states[upto], r.states[from].clock) == {}
    ensures forall id :: Bumpable(r.states[upto].cells, id) ==> EmittedWithin(r, from, upto, id)
  {
    forall id | Bumpable(r.states[upto].cells, id) ensures EmittedWithin(r, from, upto, id) {
      UntouchedOver(r, from, upto, id);
      assert id !in Waiting(r.states[upto], r.states[from].clock);
    }
  }

  /** A reader's walk is short: a stretch with a write for every cell live at its start among
      its steps, or for every sixteen if the bumps are at most 256 bytes, emits every cell live
      at its end. */
  lemma LongEnoughStretchCovers(r: Run, from: nat, upto: nat, size: Size, limit: nat)
    requires IsRun(r, size) && from < upto <= |r.steps| && limit <= MAX_SOLO_BUMP_BYTES
    requires WritesWithin(r, from, upto, size, limit)
    requires Rate(limit) * WritesIn(r, from, upto) >= |BumpableCells(r.states[from].cells)|
    ensures forall id :: Bumpable(r.states[upto].cells, id) ==> EmittedWithin(r, from, upto, id)
  {
    BoundedLookback(r, from, upto, size, limit);
    SubsetSmaller(Waiting(r.states[from], r.states[from].clock), BumpableCells(r.states[from].cells));
    EveryStepReplaces(r, size);
    assert Takes(r.states[from], r.steps[from], r.events[from], r.states[from + 1], size);
    NoneWaitingMeansAllEmitted(r, from, upto);
  }

  // ---- a cell too large to be bumped ----

  /** `c` is the stalest live cell, and too large to be bumped at any stamp. */
  ghost predicate Stuck(s: State, c: CellId, size: Size) {
    && Bumpable(s.cells, c)
    && (forall id :: Bumpable(s.cells, id) && id != c ==> s.cells[c].ts < s.cells[id].ts)
    && (forall ts: Timestamp :: size(LocalUpdate(c, s.cells[c].value, ts)) > MAX_SOLO_BUMP_BYTES)
  }

  /** The write touches neither the cell nor the tombstone of its row. */
  predicate LeavesAlone(w: Write, c: CellId) {
    w.id != c && w.id != CellId(c.table, c.row, ROW_DELETED)
  }

  lemma StuckIsFirst(s: State, w: Write, size: Size, c: CellId)
    requires LegalWrite(s, w, size) && Stuck(s, c, size)
    ensures w.cands != [] && w.cands[0].id == c
  {
    assert c in BumpableCells(s.cells) && w.cands != [];
    var first := w.cands[0];
    assert first in w.cands && Describes(s.cells, first);
    assert c in Ids(w.cands);
    var i :| 0 <= i < |w.cands| && w.cands[i].id == c;
    assert w.cands[i] in w.cands && Describes(s.cells, w.cands[i]);
  }

  lemma StuckBumpsNothing(s: State, w: Write, size: Size, c: CellId)
    requires LegalWrite(s, w, size) && Stuck(s, c, size) && w.id != c
    ensures Bumps(s, w, size).0 == []
  {
    StuckIsFirst(s, w, size, c);
    assert w.cands[0] in w.cands && Describes(s.cells, w.cands[0]) && NonUser(w.cands, w.id)[0] == w.cands[0];
    BumpsSomethingIff(w.cands, w.id, UserUpdate(s, w).cell.ts, w.now, size);
  }

  /** A write that leaves a stuck cell alone bumps nothing and leaves it live. */
  lemma StuckBlocksTheWrite(s: State, w: Write, size: Size, c: CellId)
    requires LegalStep(s, Bumping(w), size) && Stuck(s, c, size) && LeavesAlone(w, c)
    ensures Batch(s, w, size) == [UserUpdate(s, w)]
    ensures Bumpable(AfterWrite(s, w, size).cells, c) && !Emits(Batch(s, w, size), c)
  {
    hide Stale, Consistent;
    StuckBumpsNothing(s, w, size, c);
    var m, n := s.cells, AfterWrite(s, w, size).cells;
    LegalTableIsData(s, w);
    StepReplaces(s, Bumping(w), size);
    OnlyTheUserCellChanges(s, w, size);
    assert SameMarks(ValuesOf(m), ValuesOf(n));
    StaleFromMarks(ValuesOf(m), ValuesOf(n), c, m[c].ts);
  }

  lemma LegalTableIsData(s: State, w: Write)
    requires Consistent(s) && w.id.table in s.tables
    ensures !IsSystem(w.id.table)
  {
  }

  /** A step that neither writes a stuck cell nor ends its life leaves it stuck: it stays the
      stalest, and too large. */
  lemma StuckStaysStuck(s: State, step: Step, size: Size, c: CellId)
    requires LegalStep(s, step, size) && Stuck(s, c, size)
    requires !Emits(Emitted(s, step, size), c) && Bumpable(After(s, step, size).cells, c)
    ensures Stuck(After(s, step, size), c, size)
  {
    hide LegalStep, Bumpable, Emits, Consistent, DistinctIds;
    StepReplacesHere(s, step, size);
    var us, n := Emitted(s, step, size), After(s, step, size).cells;
    LiveIsHeld(s.cells, c);
    LiveIsHeld(n, c);
    forall id | Bumpable(n, id) ensures id in n && (id != c ==> n[c].ts < n[id].ts) {
      LiveIsHeld(n, id);
      EmittedOrHeld(s, us, After(s, step, size), id);
    }
  }

  lemma StepReplacesHere(s: State, step: Step, size: Size)
    requires LegalStep(s, step, size)
    ensures Consistent(s) && Replaces(s, Emitted(s, step, size), After(s, step, size))
  {
    StepReplaces(s, step, size);
  }

  lemma LiveIsHeld(m: CellMap, id: CellId)
    requires Bumpable(m, id)
    ensures id in m
  {
  }

  lemma EmittedOrHeld(s: State, us: seq<Update>, n: State, id: CellId)
    requires Consistent(s) && Replaces(s, us, n) && Bumpable(n.cells, id)
    ensures Emits(us, id) ==> forall k :: k in s.cells ==> s.cells[k].ts < n.cells[id].ts
    ensures !Emits(us, id) ==> Bumpable(s.cells, id) && n.cells[id] == s.cells[id]
  {
  }

  /** No step of the stretch touches the cell: writes leave it and its row's tombstone alone,
      other steps neither emit it nor end its life, as deleting its row, column or table would. */
  ghost predicate Untouched(r: Run, from: nat, upto: nat, c: CellId)
    requires upto <= |r.steps| == |r.events| && |r.states| == |r.steps| + 1
  {
    forall k :: from <= k < upto ==>
      match r.steps[k]
      case Bumping(w) => LeavesAlone(w, c)
      case Plain(us, _) => !Emits(us, c) && Bumpable(r.states[k + 1].cells, c)
  }

  /** One stuck cell ends compaction: from then on no write bumps anything, however many steps
      follow, until one touches the cell. */
  lemma {:induction false} StuckEndsCompaction(r: Run, from: nat, upto: nat, size: Size, c: CellId)
    requires IsRun(r, size) && from <= upto <= |r.steps|
    requires Stuck(r.states[from], c, size) && Untouched(r, from, upto, c)
    ensures Stuck(r.states[upto], c, size)
    ensures forall k :: from <= k < upto && r.steps[k].Bumping? ==>
              r.events[k] == [UserUpdate(r.states[k], r.steps[k].w)]
    decreases upto
  {
    hide Stuck, LeavesAlone, UserUpdate, Takes, Emits, Bumpable;
    if from < upto {
      StuckEndsCompaction(r, from, upto - 1, size, c);
      StuckStep(r, upto - 1, size, c);
    }
  }

  lemma StuckStep(r: Run, k: nat, size: Size, c: CellId)
    requires IsRun(r, size) && k < |r.steps| && Untouched(r, k, k + 1, c) && Stuck(r.states[k], c, size)
    ensures Stuck(r.states[k + 1], c, size)
    ensures r.steps[k].Bumping? ==> r.events[k] == [UserUpdate(r.states[k], r.steps[k].w)]
  {
    hide Stuck, LeavesAlone, UserUpdate, Emits, Bumpable, LegalStep, Batch, AfterWrite;
    assert Takes(r.states[k], r.steps[k], r.events[k], r.states[k + 1], size);
    if r.steps[k].Bumping? { StuckBlocksTheWrite(r.states[k], r.steps[k].w, size, c); }
    StuckStaysStuck(r.states[k], r.steps[k], size, c);
  }
}
