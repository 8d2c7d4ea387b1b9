/** The coverage stop: when a backward walk may end before the start of the room. */
module Coverage {
  import opened Cells
  import opened Reads
  import opened States
  import opened Compaction
  import opened Timeline

  lemma StalerIsChosen(m: CellMap, n: nat, cs: seq<Candidate>, later: Candidate, id: CellId) returns (c: Candidate)
    requires AreStalest(m, n, cs) && later in cs
    requires Bumpable(m, id) && m[id].ts < later.ts
    ensures c in cs && c.id == id && c.ts == m[id].ts
  {
    assert id in Ids(cs);
    var p :| 0 <= p < |cs| && cs[p].id == id;
    c := cs[p];
    assert Describes(m, c);
  }

  lemma StalerIsEarlier(m: CellMap, n: nat, cs: seq<Candidate>, user: CellId, j: nat, id: CellId) returns (q: nat)
    requires AreStalest(m, n, cs) && j < |NonUser(cs, user)| && id != user
    requires Bumpable(m, id) && m[id].ts < NonUser(cs, user)[j].ts
    ensures q < j && NonUser(cs, user)[q].id == id
  {
    var nu := NonUser(cs, user);
    NonUserKeepsTheOthers(cs, user, nu[j]);
    var c := StalerIsChosen(m, n, cs, nu[j], id);
    NonUserKeepsTheOthers(cs, user, c);
    q :| 0 <= q < |nu| && nu[q] == c;
    NonUserStaysSorted(cs, user);
  }

  lemma BumpIndex(s: State, w: Write, size: Size, c: CellId) returns (j: nat)
    requires SortedCandidates(w.cands) && Emits(Bumps(s, w, size).0, c)
    ensures j < |Bumps(s, w, size).0| <= |NonUser(w.cands, w.id)|
    ensures NonUser(w.cands, w.id)[j].id == c && NonUser(w.cands, w.id)[j] in w.cands
  {
    var us, nu := Bumps(s, w, size).0, NonUser(w.cands, w.id);
    BumpsAreAPrefix(w.cands, w.id, UserUpdate(s, w).cell.ts, w.now, 1, BUMP_BYTE_BUDGET, true, size);
    j :| 0 <= j < |us| && us[j].id == c;
    NonUserSorted(w.cands, w.id);
    assert Carries(us[j], nu[j]) && nu[j] in nu;
  }

  lemma EarlierBumpsAreEmitted(s: State, w: Write, size: Size, q: nat)
    requires q < |Bumps(s, w, size).0| <= |NonUser(w.cands, w.id)|
    ensures Emits(Batch(s, w, size), NonUser(w.cands, w.id)[q].id)
  {
    var us := Bumps(s, w, size).0;
    BumpsAreAPrefix(w.cands, w.id, UserUpdate(s, w).cell.ts, w.now, 1, BUMP_BYTE_BUDGET, true, size);
    assert Carries(us[q], NonUser(w.cands, w.id)[q]);
    assert Batch(s, w, size)[q + 1] == us[q];
  }

  /** Candidates are bumped stalest first, so everything staler than a bumped cell is in
      the same event. */
  lemma StalerThanABumpIsEmitted(s: State, w: Write, size: Size, c: CellId, id: CellId)
    requires AreStalest(s.cells, BUMP_CELLS_PER_WRITE, w.cands) && Emits(Bumps(s, w, size).0, c)
    requires Bumpable(s.cells, id) && c in s.cells && s.cells[id].ts < s.cells[c].ts
    ensures Emits(Batch(s, w, size), id)
  {
    if id == w.id {
      assert Batch(s, w, size)[0] == UserUpdate(s, w);
    } else {
      var j := BumpIndex(s, w, size, c);
      assert Describes(s.cells, NonUser(w.cands, w.id)[j]);
      var q := StalerIsEarlier(s.cells, BUMP_CELLS_PER_WRITE, w.cands, w.id, j, id);
      EarlierBumpsAreEmitted(s, w, size, q);
    }
  }

  /** `c` is emitted by event `i` and next emitted by event `l`, there as a bump. */
  ghost predicate ReBumped(r: Run, size: Size, i: nat, l: nat, c: CellId)
    requires |r.steps| == |r.events| && |r.states| == |r.events| + 1
  {
    && i < l < |r.steps|
    && Emits(r.events[i], c)
    && !EmittedWithin(r, i + 1, l, c)
    && r.steps[l].Bumping?
    && Emits(Bumps(r.states[l], r.steps[l].w, size).0, c)
  }

  lemma EmittedStampIsNew(r: Run, i: nat, l: nat, c: CellId)
    requires IsTrail(r) && i < l <= |r.events| && Emits(r.events[i], c) && !EmittedWithin(r, i + 1, l, c)
    requires c in r.states[l].cells
    ensures r.states[l].cells[c].ts > r.states[i].clock
  {
    assert Replaces(r.states[i], r.events[i], r.states[i + 1]);
    UntouchedOver(r, i + 1, l, c);
  }

  /** One cell whose next emission is a bump proves coverage: every cell live at a later
      point of the run was emitted at or after the first of the two emissions. */
  lemma ReBumpCovers(r: Run, size: Size, i: nat, l: nat, n: nat, c: CellId, id: CellId)
    requires IsRun(r, size) && ReBumped(r, size, i, l, c) && l < n <= |r.events|
    requires Bumpable(r.states[n].cells, id)
    ensures EmittedWithin(r, i, n, id)
  {
    EveryStepReplaces(r, size);
    if !EmittedWithin(r, i, n, id) {
      UntouchedOver(r, i, n, id);
      assert !EmittedWithin(r, l, n, id) && !EmittedWithin(r, i, l, id);
      UntouchedOver(r, l, n, id);
      UntouchedOver(r, i, l, id);
      var s, w := r.states[l], r.steps[l].w;
      assert Takes(s, r.steps[l], r.events[l], r.states[l + 1], size);
      BumpsKeepValues(s, w, size);
      assert c in s.cells;
      EmittedStampIsNew(r, i, l, c);
      assert Takes(r.states[i], r.steps[i], r.events[i], r.states[i + 1], size);
      StalerThanABumpIsEmitted(s, w, size, c, id);
      assert false;
    }
  }

  // ---- replaying the events a reader has fetched ----

  /** Everything received from event `from` on, newest event first, as a walk reads it. */
  function ReceivedFrom(events: seq<seq<Update>>, ots: seq<Timestamp>, from: nat): seq<Update>
    requires |events| == |ots| && from <= |events|
    decreases |events| - from
  {
    if from == |events| then []
    else ReceivedFrom(events, ots, from + 1) + Receive(events[from], ots[from])
  }

  lemma {:induction false} FetchedIsReceived(events: seq<seq<Update>>, ots: seq<Timestamp>, from: nat, k: nat,
                                             u: Update)
    requires |events| == |ots| && from <= k < |events| && u in events[k]
    ensures Stamped(u, ots[k]) in ReceivedFrom(events, ots, from)
    decreases |events| - from
  {
    if from == k {
      var p :| 0 <= p < |events[k]| && events[k][p] == u;
      assert Receive(events[k], ots[k])[p] == Stamped(u, ots[k]);
    } else {
      FetchedIsReceived(events, ots, from + 1, k, u);
    }
  }

  lemma {:induction false} ReceivedWasFetched(events: seq<seq<Update>>, ots: seq<Timestamp>, from: nat, x: Update)
    returns (k: nat, u: Update)
    requires |events| == |ots| && from <= |events| && x in ReceivedFrom(events, ots, from)
    ensures from <= k < |events| && u in events[k] && x == Stamped(u, ots[k])
    decreases |events| - from
  {
    if x in ReceivedFrom(events, ots, from + 1) {
      k, u := ReceivedWasFetched(events, ots, from + 1, x);
    } else {
      var p :| 0 <= p < |events[from]| && Receive(events[from], ots[from])[p] == x;
      k, u := from, events[from][p];
    }
  }

  lemma {:induction false} LastEmissionExists(r: Run, from: nat, upto: nat, id: CellId) returns (k: nat)
    requires from <= upto <= |r.events|
    requires EmittedWithin(r, from, upto, id)
    ensures from <= k < upto && Emits(r.events[k], id) && !EmittedWithin(r, k + 1, upto, id)
    decreases upto
  {
    if Emits(r.events[upto - 1], id) {
      k := upto - 1;
    } else {
      k := LastEmissionExists(r, from, upto - 1, id);
    }
  }

  lemma EarlierStampsAreSmaller(r: Run, j: nat, k: nat, u: Update, v: Update)
    requires IsTrail(r) && j < k < |r.events| && u in r.events[j] && v in r.events[k]
    ensures u.cell.ts < v.cell.ts
  {
    assert Replaces(r.states[j], r.events[j], r.states[j + 1]);
    assert Replaces(r.states[k], r.events[k], r.states[k + 1]);
    UntouchedOver(r, j + 1, k, u.id);
  }

  /** Replaying any suffix of the timeline that holds the last emission of a cell gives that
      emission: deeper events never change it. */
  lemma ReplayKeepsLastEmission(r: Run, ots: seq<Timestamp>, from: nat, k: nat, u: Update)
    requires IsTrail(r) && |ots| == |r.events| && from <= k < |r.events|
    requires u in r.events[k] && !EmittedWithin(r, k + 1, |r.events|, u.id)
    ensures var m := PutAll(map[], ReceivedFrom(r.events, ots, from));
      u.id in m && m[u.id] == Stamped(u, ots[k]).cell
  {
    var us := ReceivedFrom(r.events, ots, from);
    var id, top := u.id, Stamped(u, ots[k]).cell;
    FetchedIsReceived(r.events, ots, from, k, u);
    PutAllKeepsWinner(map[], us, id);
    assert Offered(map[], us, id, top);
    var won := PutAll(map[], us)[id];
    assert Update(id, won) in us && WinsOver(won, top);
    var j, v := ReceivedWasFetched(r.events, ots, from, Update(id, won));
    OnlyTheLastWins(r, |r.events|, j, v, k, u);
    WinsOverIsRankOrder(won, top);
  }

  /** Among the emissions of one cell before event `n`, one stamped at or after the last is
      the last. */
  lemma OnlyTheLastWins(r: Run, n: nat, j: nat, v: Update, k: nat, u: Update)
    requires IsTrail(r) && j < n <= |r.events| && k < n
    requires v in r.events[j] && u in r.events[k] && v.id == u.id
    requires !EmittedWithin(r, k + 1, n, u.id)
    ensures v.cell.ts >= u.cell.ts ==> j == k && v == u
  {
    assert Emits(r.events[j], u.id);
    if j < k {
      EarlierStampsAreSmaller(r, j, k, v, u);
    } else if j == k {
      assert Replaces(r.states[k], r.events[k], r.states[k + 1]);
    }
  }

  /** Replay of the room's events from `from` on, which is full replay from zero on. */
  function WalkedReplay(r: Run, ots: seq<Timestamp>, from: nat): CellMap
    requires |ots| == |r.events| && from <= |r.events|
  {
    PutAll(map[], ReceivedFrom(r.events, ots, from))
  }

  /** A walk that stops early holds nothing but what full replay holds. */
  lemma WalkIsPartOfFullReplay(r: Run, ots: seq<Timestamp>, from: nat, id: CellId)
    requires IsTrail(r) && |ots| == |r.events| && from <= |r.events|
    requires id in WalkedReplay(r, ots, from)
    ensures id in WalkedReplay(r, ots, 0) && WalkedReplay(r, ots, 0)[id] == WalkedReplay(r, ots, from)[id]
  {
    var us := ReceivedFrom(r.events, ots, from);
    PutAllKeepsWinner(map[], us, id);
    var j, v := ReceivedWasFetched(r.events, ots, from, Update(id, PutAll(map[], us)[id]));
    assert Emits(r.events[j], id) && EmittedWithin(r, from, |r.events|, id);
    EmittedMeansWalkAgrees(r, ots, from, id);
  }

  lemma EmittedMeansWalkAgrees(r: Run, ots: seq<Timestamp>, from: nat, id: CellId)
    requires IsTrail(r) && |ots| == |r.events| && from <= |r.events|
    requires EmittedWithin(r, from, |r.events|, id)
    ensures id in WalkedReplay(r, ots, from) && id in WalkedReplay(r, ots, 0)
    ensures WalkedReplay(r, ots, from)[id] == WalkedReplay(r, ots, 0)[id]
    ensures id in r.states[|r.events|].cells
    ensures WalkedReplay(r, ots, from)[id].value == r.states[|r.events|].cells[id].value
  {
    var n := |r.events|;
    var k := LastEmissionExists(r, from, n, id);
    var u :| u in r.events[k] && u.id == id;
    ReplayKeepsLastEmission(r, ots, from, k, u);
    ReplayKeepsLastEmission(r, ots, 0, k, u);
    HeldForever(r, k + 1, n, id, u.cell);
  }

  lemma {:induction false} HeldForever(r: Run, i: nat, l: nat, id: CellId, c: Cell)
    requires IsTrail(r) && 0 < i <= l <= |r.events|
    requires Emits(r.events[i - 1], id) && Update(id, c) in r.events[i - 1] && !EmittedWithin(r, i, l, id)
    ensures id in r.states[l].cells && r.states[l].cells[id] == c
    decreases l
  {
    assert Replaces(r.states[l - 1], r.events[l - 1], r.states[l]);
    if i < l {
      HeldForever(r, i, l - 1, id, c);
      assert !Emits(r.events[l - 1], id);
    }
  }

  // ---- the stop as the walk takes it, page by page ----

  /** A page, events `lo` to `hi`, holds no cell that the events from `hi` to `n` do not. */
  ghost predicate PageAddsNothing(r: Run, lo: nat, hi: nat, n: nat)
    requires lo <= hi <= n <= |r.events|
  {
    forall id :: EmittedWithin(r, lo, hi, id) ==> EmittedWithin(r, hi, n, id)
  }

  /** From event `hi` to event `n` the user never writes `c`: whatever emits it bumps it. */
  ghost predicate OnlyBumpedSince(r: Run, size: Size, hi: nat, n: nat, c: CellId)
    requires |r.steps| == |r.events| && |r.states| == |r.events| + 1 && n <= |r.events|
  {
    forall k :: hi <= k < n && Emits(r.events[k], c) ==>
      r.steps[k].Bumping? && Emits(Bumps(r.states[k], r.steps[k].w, size).0, c)
  }

  lemma {:induction false} FirstEmissionExists(r: Run, from: nat, upto: nat, id: CellId) returns (k: nat)
    requires from <= upto <= |r.events| && EmittedWithin(r, from, upto, id)
    ensures from <= k < upto && Emits(r.events[k], id) && !EmittedWithin(r, from, k, id)
    decreases upto - from
  {
    if Emits(r.events[from], id) {
      k := from;
    } else {
      k := FirstEmissionExists(r, from + 1, upto, id);
    }
  }

  /** The coverage rule, page by page: the walk has read events `lo` to `n`, the last page
      (`lo` to `hi`) had no new cell, and it holds a cell the user has not written since.
      Then everything live at `n` has been read. */
  lemma PageStopCovers(r: Run, size: Size, lo: nat, hi: nat, n: nat, c: CellId, id: CellId)
    requires IsRun(r, size) && lo < hi <= n <= |r.events|
    requires PageAddsNothing(r, lo, hi, n)
    requires EmittedWithin(r, lo, hi, c) && OnlyBumpedSince(r, size, hi, n, c)
    requires Bumpable(r.states[n].cells, id)
    ensures EmittedWithin(r, lo, n, id)
  {
    var i := LastEmissionExists(r, lo, hi, c);
    var l := FirstEmissionExists(r, hi, n, c);
    forall k | i < k < l ensures !Emits(r.events[k], c) {
      assert k < hi ==> !EmittedWithin(r, i + 1, hi, c);
    }
    ReBumpCovers(r, size, i, l, n, c, id);
  }

  /** With that evidence the coverage stop is sound: every cell live in the writer's workspace
      is held by the reader, with the value the writer holds and exactly the cell full replay
      would give, and the reader holds nothing else than full replay does. */
  lemma PageStopIsSound(r: Run, size: Size, ots: seq<Timestamp>, lo: nat, hi: nat, c: CellId)
    requires IsRun(r, size) && |ots| == |r.events| && lo < hi <= |r.events|
    requires PageAddsNothing(r, lo, hi, |r.events|)
    requires EmittedWithin(r, lo, hi, c) && OnlyBumpedSince(r, size, hi, |r.events|, c)
    ensures var live, walked, full := r.states[|r.events|].cells, WalkedReplay(r, ots, lo), WalkedReplay(r, ots, 0);
      && (forall id :: Bumpable(live, id) ==>
            id in walked && id in full && walked[id] == full[id] && walked[id].value == live[id].value)
      && (forall id :: id in walked ==> id in full && full[id] == walked[id])
  {
    EveryStepReplaces(r, size);
    var live, walked, full := r.states[|r.events|].cells, WalkedReplay(r, ots, lo), WalkedReplay(r, ots, 0);
    forall id | Bumpable(live, id)
      ensures id in walked && id in full && walked[id] == full[id] && walked[id].value == live[id].value
    {
      PageStopCovers(r, size, lo, hi, |r.events|, c, id);
      EmittedMeansWalkAgrees(r, ots, lo, id);
    }
    forall id | id in walked ensures id in full && full[id] == walked[id] {
      WalkIsPartOfFullReplay(r, ots, lo, id);
    }
  }

  /** Exactly when stopping is complete, evidence or not: every live cell emitted in the part
      not read was emitted again in the part read. */
  lemma StopIsCompleteIff(r: Run, size: Size, ots: seq<Timestamp>, lo: nat)
    requires IsRun(r, size) && r.states[0] == EMPTY && lo <= |r.events| == |ots|
    ensures var live, walked := r.states[|r.events|].cells, WalkedReplay(r, ots, lo);
      (forall id :: Bumpable(live, id) ==> id in walked)
      <==> (forall id :: Bumpable(live, id) && EmittedWithin(r, 0, lo, id) ==> EmittedWithin(r, lo, |r.events|, id))
  {
    EveryStepReplaces(r, size);
    var n, us := |r.events|, ReceivedFrom(r.events, ots, lo);
    forall id | id in r.states[n].cells
      ensures id in WalkedReplay(r, ots, lo) <==> EmittedWithin(r, lo, n, id)
      ensures !EmittedWithin(r, 0, lo, id) ==> EmittedWithin(r, lo, n, id)
    {
      if id in WalkedReplay(r, ots, lo) {
        PutAllKeepsWinner(map[], us, id);
        var k, v := ReceivedWasFetched(r.events, ots, lo, Update(id, PutAll(map[], us)[id]));
        assert Emits(r.events[k], id);
      }
      if EmittedWithin(r, lo, n, id) { EmittedMeansWalkAgrees(r, ots, lo, id); }
      UntouchedOver(r, 0, n, id);
    }
  }

  // ---- without that evidence the stop is wrong ----

  function Solo(id: CellId, ts: Timestamp): seq<Update> {
    [LocalUpdate(id, Bool(true), ts)]
  }

  lemma PlainDataKeepsAllLive(m: CellMap)
    requires forall id :: id in m ==> KindOf(id.table) == DataTable && id.col != ROW_DELETED
    ensures forall id :: id in m ==> Bumpable(m, id)
  {
    forall id | id in m ensures Bumpable(m, id) {
      var v := ValuesOf(m);
      assert ColumnRows(v, id.table, id.col) == {};
      assert KindOf(TABLES) == RegistryTable;
      assert TableFloor(v, id.table) == None;
    }
  }

  lemma SoloStep(s: State, id: CellId, size: Size) returns (n: State)
    requires Consistent(s) && s.clock < U64_MAX && KindOf(id.table) == DataTable && id.col != ROW_DELETED
    requires forall k :: k in s.cells ==> KindOf(k.table) == DataTable && k.col != ROW_DELETED
    ensures Takes(s, Plain(Solo(id, s.clock + 1), s.clock + 1), Solo(id, s.clock + 1), n, size)
    ensures Consistent(n) && n.clock == s.clock + 1 && n.cells.Keys == s.cells.Keys + {id}
  {
    hide Bumpable;
    var us, clock := Solo(id, s.clock + 1), s.clock + 1;
    n := After(s, Plain(us, clock), size);
    assert us[..0] == [] && ApplyAll(s.(clock := clock), us) == Apply(s.(clock := clock), us[0]);
    PlainDataKeepsAllLive(s.cells);
    ApplyAllConsistent(s.(clock := clock), us);
    forall k | Bumpable(n.cells, k) && !Emits(us, k) ensures Bumpable(s.cells, k) {
      BumpableIsHeld(n.cells, k);
      assert us[0] in us && k != id;
    }
  }

  function Last(r: Run): State
    requires r.states != []
  {
    r.states[|r.states| - 1]
  }

  lemma RunExtends(r: Run, step: Step, us: seq<Update>, n: State, size: Size) returns (x: Run)
    requires IsRun(r, size) && Takes(Last(r), step, us, n, size)
    ensures IsRun(x, size) && x.events == r.events + [us] && Last(x) == n
  {
    hide Takes;
    x := Run(r.states + [n], r.steps + [step], r.events + [us]);
    forall k | 0 <= k < |x.steps| ensures Takes(x.states[k], x.steps[k], x.events[k], x.states[k + 1], size) {
      if k < |r.steps| { assert Takes(r.states[k], r.steps[k], r.events[k], r.states[k + 1], size); }
    }
  }

  ghost predicate PlainData(s: State) {
    Consistent(s) && forall k :: k in s.cells ==> KindOf(k.table) == DataTable && k.col != ROW_DELETED
  }

  /** Import one cell at the end of a run. */
  lemma Import(r: Run, id: CellId, ts: Timestamp, size: Size) returns (x: Run)
    requires IsRun(r, size) && PlainData(Last(r)) && Last(r).clock + 1 == ts
    requires KindOf(id.table) == DataTable && id.col != ROW_DELETED
    ensures IsRun(x, size) && x.events == r.events + [Solo(id, ts)]
    ensures PlainData(Last(x)) && Last(x).clock == ts && Last(x).cells.Keys == Last(r).cells.Keys + {id}
  {
    hide Takes, Consistent, Solo;
    var n := SoloStep(Last(r), id, size);
    x := RunExtends(r, Plain(Solo(id, ts), ts), Solo(id, ts), n, size);
  }

  lemma NothingIsARun(size: Size)
    ensures IsRun(Run([EMPTY], [], []), size) && PlainData(EMPTY)
  {
  }

  lemma PlainDataIsLive(s: State, id: CellId)
    requires PlainData(s) && id in s.cells
    ensures Bumpable(s.cells, id)
  {
    PlainDataKeepsAllLive(s.cells);
  }

  /** From event `from` to the end each event is one update of `id`. */
  ghost predicate OnlyFrom(events: seq<seq<Update>>, from: nat, id: CellId) {
    forall j :: from <= j < |events| ==> |events[j]| == 1 && events[j][0].id == id
  }

  lemma {:induction false} ImportMany(r: Run, id: CellId, k: nat, size: Size) returns (x: Run)
    requires IsRun(r, size) && PlainData(Last(r)) && Last(r).clock + k <= U64_MAX
    requires KindOf(id.table) == DataTable && id.col != ROW_DELETED
    ensures IsRun(x, size) && |x.events| == |r.events| + k && r.events <= x.events && OnlyFrom(x.events, |r.events|, id)
    ensures PlainData(Last(x)) && Last(x).clock == Last(r).clock + k && Last(r).cells.Keys <= Last(x).cells.Keys
    decreases k
  {
    hide PlainData;
    if k == 0 {
      x := r;
    } else {
      var y := ImportMany(r, id, k - 1, size);
      x := Import(y, id, Last(r).clock + k, size);
    }
  }

  /** One cell imported, then another one as often as fills two pages of any length: the
      second page adds nothing, so the walk stops there and never sees the first cell. */
  lemma StopWithoutEvidenceMissesCells(size: Size, n: nat, ots: seq<Timestamp>, a: CellId, b: CellId) returns (r: Run)
    requires 0 < n && 2 * n < U64_MAX && |ots| == 2 * n + 1 && a != b
    requires KindOf(a.table) == DataTable && KindOf(b.table) == DataTable
    requires a.col != ROW_DELETED && b.col != ROW_DELETED
    ensures IsRun(r, size) && |r.events| == 2 * n + 1
    ensures PageAddsNothing(r, 1, n + 1, 2 * n + 1)
    ensures Bumpable(r.states[2 * n + 1].cells, a) && a !in WalkedReplay(r, ots, 1) && a in WalkedReplay(r, ots, 0)
  {
    hide PutAll, ReceivedFrom, Takes, PlainData, Bumpable, PageAddsNothing, OnlyFrom;
    NothingIsARun(size);
    var start := Import(Run([EMPTY], [], []), a, 1, size);
    r := ImportMany(start, b, 2 * n, size);
    PlainDataIsLive(Last(r), a);
    SecondPageAddsNothing(r, n + 1, 2 * n + 1, a, b, ots);
    assert r.events[0] == start.events[0];
    HeldInFullReplay(r, size, a, ots);
  }

  lemma SecondPageAddsNothing(r: Run, hi: nat, end: nat, a: CellId, b: CellId, ots: seq<Timestamp>)
    requires 1 <= hi < end == |r.events| == |ots| && a != b && OnlyFrom(r.events, 1, b)
    ensures PageAddsNothing(r, 1, hi, end) && a !in WalkedReplay(r, ots, 1)
  {
    assert r.events[hi][0] in r.events[hi] && Emits(r.events[hi], b);
    forall id | EmittedWithin(r, 1, hi, id) ensures EmittedWithin(r, hi, end, id) {
      var k :| 1 <= k < hi && Emits(r.events[k], id);
      assert id == b;
    }
    forall x | x in ReceivedFrom(r.events, ots, 1) ensures x.id == b {
      var j, v := ReceivedWasFetched(r.events, ots, 1, x);
    }
    PutAllKeepsWinner(map[], ReceivedFrom(r.events, ots, 1), a);
  }

  lemma HeldInFullReplay(r: Run, size: Size, a: CellId, ots: seq<Timestamp>)
    requires IsRun(r, size) && |ots| == |r.events| > 0 && r.events[0] == Solo(a, 1)
    ensures a in WalkedReplay(r, ots, 0)
  {
    EveryStepReplaces(r, size);
    assert Solo(a, 1)[0] in r.events[0] && Emits(r.events[0], a);
    EmittedMeansWalkAgrees(r, ots, 0, a);
  }
}
