/** Order-based compaction: every write also re-emits the stalest live cells. */
module Compaction {
  import opened Cells
  import opened Reads
  import opened States

  // The write is given as a function of the candidates chosen (hash order decides among
  // equally stale ones), of the clock readings `now(0), now(1), ...` and of the serialized
  // size of an update.

  const BUMP_CELLS_PER_WRITE: nat := 16
  const BUMP_BYTE_BUDGET: nat := 4 * 1024
  const MAX_BUMPABLE_CELL_BYTES: nat := 2 * 1024
  const MAX_SOLO_BUMP_BYTES: nat := 32 * 1024

  datatype Candidate = Candidate(id: CellId, value: Value, ts: Timestamp)

  type Readings = nat -> Timestamp
  type Size = Update -> nat

  ghost predicate Describes(m: CellMap, c: Candidate) {
    Bumpable(m, c.id) && m[c.id].value == c.value && m[c.id].ts == c.ts
  }

  /** Oldest first, distinct. */
  ghost predicate SortedCandidates(cs: seq<Candidate>) {
    forall i, j :: 0 <= i < j < |cs| ==> cs[i].ts <= cs[j].ts && cs[i].id != cs[j].id
  }

  function Ids(cs: seq<Candidate>): set<CellId> {
    set i | 0 <= i < |cs| :: cs[i].id
  }

  ghost predicate DistinctCells(cs: seq<Candidate>) {
    forall i, j :: 0 <= i < j < |cs| ==> cs[i].id != cs[j].id
  }

  lemma IdsConcat(a: seq<Candidate>, b: seq<Candidate>)
    ensures Ids(a + b) == Ids(a) + Ids(b)
  {
    forall id | id in Ids(a) + Ids(b) ensures id in Ids(a + b) {
      if id in Ids(a) {
        var i :| 0 <= i < |a| && a[i].id == id;
        assert (a + b)[i].id == id;
      } else {
        var i :| 0 <= i < |b| && b[i].id == id;
        assert (a + b)[|a| + i].id == id;
      }
    }
  }

  lemma {:induction false} IdsOfDistinct(cs: seq<Candidate>)
    requires DistinctCells(cs)
    ensures |Ids(cs)| == |cs|
  {
    if cs != [] {
      var n := |cs| - 1;
      IdsOfDistinct(cs[..n]);
      IdsConcat(cs[..n], [cs[n]]);
      assert cs == cs[..n] + [cs[n]];
      assert Ids([cs[n]]) == {cs[n].id} by { assert [cs[n]][0].id == cs[n].id; }
      assert cs[n].id !in Ids(cs[..n]);
    }
  }

  lemma SubsetSmaller(a: set<CellId>, b: set<CellId>)
    requires a <= b
    ensures |a| <= |b|
  {
    if a != b { assert b == a + (b - a); }
  }

  /** `cs` are the `n` stalest bumpable cells of the whole workspace, oldest first. */
  ghost predicate AreStalest(m: CellMap, n: nat, cs: seq<Candidate>) {
    && (forall c :: c in cs ==> Describes(m, c))
    && SortedCandidates(cs)
    && |cs| <= n
    && (forall id, c :: Bumpable(m, id) && id !in Ids(cs) && c in cs ==> |cs| == n && c.ts <= m[id].ts)
    && (|cs| < n ==> BumpableCells(m) <= Ids(cs))
  }

  /** The bump loop: bumps emitted and the clock afterwards.  `alone` while nothing but
      the user's own write is in the batch. */
  function BumpLoop(cs: seq<Candidate>, user: CellId, clock: Timestamp, now: Readings, call: nat,
                    budget: nat, alone: bool, size: Size): (seq<Update>, Timestamp)
  {
    if cs == [] then ([], clock)
    else if cs[0].id == user then BumpLoop(cs[1..], user, clock, now, call, budget, alone, size)
    else
      var ts := NextTimestamp(clock, now(call));
      var bump := LocalUpdate(cs[0].id, cs[0].value, ts);
      var bytes := size(bump);
      if bytes > MAX_BUMPABLE_CELL_BYTES then
        (if alone && bytes <= MAX_SOLO_BUMP_BYTES then [bump] else [], ts)
      else if bytes > budget then ([], ts)
      else
        var rest := BumpLoop(cs[1..], user, ts, now, call + 1, budget - bytes, false, size);
        ([bump] + rest.0, rest.1)
  }

  /** One call of `update_cell_with_bump`. */
  datatype Write = Write(id: CellId, value: Value, cands: seq<Candidate>, now: Readings)

  function UserUpdate(s: State, w: Write): Update {
    LocalUpdate(w.id, w.value, NextTimestamp(s.clock, w.now(0)))
  }

  function Bumps(s: State, w: Write, size: Size): (seq<Update>, Timestamp) {
    BumpLoop(w.cands, w.id, UserUpdate(s, w).cell.ts, w.now, 1, BUMP_BYTE_BUDGET, true, size)
  }

  function Batch(s: State, w: Write, size: Size): seq<Update> {
    [UserUpdate(s, w)] + Bumps(s, w, size).0
  }

  function AfterWrite(s: State, w: Write, size: Size): State {
    ApplyAll(s.(clock := Bumps(s, w, size).1), Batch(s, w, size))
  }

  ghost predicate LegalWrite(s: State, w: Write, size: Size) {
    && Consistent(s)
    && w.id.table in s.tables
    && AreStalest(s.cells, BUMP_CELLS_PER_WRITE, w.cands)
    && Bumps(s, w, size).1 < U64_MAX
  }

  ghost predicate Ascending(us: seq<Update>, low: Timestamp, high: Timestamp) {
    && (forall i, j :: 0 <= i < j < |us| ==> us[i].cell.ts < us[j].cell.ts)
    && (forall i :: 0 <= i < |us| ==> low < us[i].cell.ts <= high)
  }

  /** Below saturation the stamps of the bumps ascend past the clock. */
  lemma {:induction false} StampsAscend(cs: seq<Candidate>, user: CellId, clock: Timestamp, now: Readings,
                                        call: nat, budget: nat, alone: bool, size: Size)
    requires BumpLoop(cs, user, clock, now, call, budget, alone, size).1 < U64_MAX
    ensures var (us, end) := BumpLoop(cs, user, clock, now, call, budget, alone, size);
      clock <= end && Ascending(us, clock, end)
  {
    if cs != [] {
      var ts := NextTimestamp(clock, now(call));
      var bump := LocalUpdate(cs[0].id, cs[0].value, ts);
      if cs[0].id == user {
        StampsAscend(cs[1..], user, clock, now, call, budget, alone, size);
      } else if size(bump) <= MAX_BUMPABLE_CELL_BYTES && size(bump) <= budget {
        StampsAscend(cs[1..], user, ts, now, call + 1, budget - size(bump), false, size);
      }
    }
  }

  function NonUser(cs: seq<Candidate>, user: CellId): seq<Candidate> {
    if cs == [] then []
    else (if cs[0].id == user then [] else [cs[0]]) + NonUser(cs[1..], user)
  }

  lemma InHeadOrTail(cs: seq<Candidate>, c: Candidate)
    requires cs != []
    ensures c in cs <==> c == cs[0] || c in cs[1..]
  {
    assert cs == [cs[0]] + cs[1..];
  }

  lemma {:induction false} NonUserKeepsTheOthers(cs: seq<Candidate>, user: CellId, c: Candidate)
    ensures c in NonUser(cs, user) <==> c in cs && c.id != user
  {
    if cs != [] {
      InHeadOrTail(cs, c);
      NonUserKeepsTheOthers(cs[1..], user, c);
    }
  }

  lemma {:induction false} NonUserIsShorterByOne(cs: seq<Candidate>, user: CellId)
    requires SortedCandidates(cs)
    ensures |cs| - 1 <= |NonUser(cs, user)| <= |cs|
    ensures (forall c :: c in cs ==> c.id != user) ==> |NonUser(cs, user)| == |cs|
  {
    if cs != [] {
      NonUserIsShorterByOne(cs[1..], user);
    }
  }

  lemma SortedHead(cs: seq<Candidate>, c: Candidate)
    requires SortedCandidates(cs) && cs != [] && c in cs[1..]
    ensures cs[0].ts <= c.ts && cs[0].id != c.id
  {
  }

  lemma SortedUnderHead(head: Candidate, rest: seq<Candidate>)
    requires SortedCandidates(rest) && forall c :: c in rest ==> head.ts <= c.ts && head.id != c.id
    ensures SortedCandidates([head] + rest)
  {
    var cs := [head] + rest;
    forall i, j | 0 <= i < j < |cs| ensures cs[i].ts <= cs[j].ts && cs[i].id != cs[j].id {
      assert cs[j] == rest[j - 1] && cs[j] in rest;
    }
  }

  lemma {:induction false} NonUserStaysSorted(cs: seq<Candidate>, user: CellId)
    requires SortedCandidates(cs)
    ensures SortedCandidates(NonUser(cs, user))
  {
    if cs != [] {
      NonUserStaysSorted(cs[1..], user);
      var rest := NonUser(cs[1..], user);
      forall c | c in rest ensures cs[0].ts <= c.ts && cs[0].id != c.id {
        NonUserKeepsTheOthers(cs[1..], user, c);
        SortedHead(cs, c);
      }
      SortedUnderHead(cs[0], rest);
    }
  }

  lemma NonUserSorted(cs: seq<Candidate>, user: CellId)
    requires SortedCandidates(cs)
    ensures SortedCandidates(NonUser(cs, user))
    ensures forall c :: c in NonUser(cs, user) <==> c in cs && c.id != user
    ensures |cs| - 1 <= |NonUser(cs, user)| <= |cs|
    ensures (forall c :: c in cs ==> c.id != user) ==> |NonUser(cs, user)| == |cs|
  {
    NonUserStaysSorted(cs, user);
    NonUserIsShorterByOne(cs, user);
    forall c ensures c in NonUser(cs, user) <==> c in cs && c.id != user {
      NonUserKeepsTheOthers(cs, user, c);
    }
  }

  ghost predicate Carries(u: Update, c: Candidate) {
    u == LocalUpdate(c.id, c.value, u.cell.ts)
  }

  ghost predicate CarriesStart(us: seq<Update>, nu: seq<Candidate>) {
    |us| <= |nu| && forall i :: 0 <= i < |us| ==> Carries(us[i], nu[i])
  }

  lemma CarriesNothing()
    ensures CarriesStart([], [])
  {
  }

  lemma CarriesBehind(first: Update, us: seq<Update>, c: Candidate, nu: seq<Candidate>)
    requires Carries(first, c) && CarriesStart(us, nu)
    ensures CarriesStart([first] + us, [c] + nu)
  {
    hide Carries;
  }

  lemma CarriesOne(first: Update, nu: seq<Candidate>)
    requires nu != [] && Carries(first, nu[0])
    ensures CarriesStart([first], nu) && CarriesStart([], nu)
  {
  }

  /** The bumps are the candidates other than the user's cell, in order, up to a point. */
  lemma {:induction false} BumpsAreAPrefix(cs: seq<Candidate>, user: CellId, clock: Timestamp, now: Readings,
                                           call: nat, budget: nat, alone: bool, size: Size)
    ensures CarriesStart(BumpLoop(cs, user, clock, now, call, budget, alone, size).0, NonUser(cs, user))
  {
    hide NextTimestamp, CarriesStart;
    CarriesNothing();
    if cs != [] {
      var ts, rest := NextTimestamp(clock, now(call)), NonUser(cs[1..], user);
      var bump := LocalUpdate(cs[0].id, cs[0].value, ts);
      if cs[0].id == user {
        assert NonUser(cs, user) == rest;
        BumpsAreAPrefix(cs[1..], user, clock, now, call, budget, alone, size);
      } else {
        assert NonUser(cs, user) == [cs[0]] + rest;
        if size(bump) <= MAX_BUMPABLE_CELL_BYTES && size(bump) <= budget {
          var us := BumpLoop(cs[1..], user, ts, now, call + 1, budget - size(bump), false, size).0;
          BumpsAreAPrefix(cs[1..], user, ts, now, call + 1, budget - size(bump), false, size);
          CarriesBehind(bump, us, cs[0], rest);
        } else {
          CarriesOne(bump, [cs[0]] + rest);
        }
      }
    }
  }

  /** With every bump small enough for its share of the budget, no candidate is left out. */
  lemma {:induction false} SmallBumpsAllFit(cs: seq<Candidate>, user: CellId, clock: Timestamp, now: Readings,
                                            call: nat, budget: nat, alone: bool, size: Size, share: nat)
    requires share <= MAX_BUMPABLE_CELL_BYTES && share * |cs| <= budget
    requires forall c, ts :: c in cs ==> size(LocalUpdate(c.id, c.value, ts)) <= share
    ensures |BumpLoop(cs, user, clock, now, call, budget, alone, size).0| == |NonUser(cs, user)|
  {
    if cs != [] {
      assert share * |cs| == share + share * |cs[1..]|;
      var ts := NextTimestamp(clock, now(call));
      var bump := LocalUpdate(cs[0].id, cs[0].value, ts);
      assert cs[0] in cs && size(bump) <= share;
      if cs[0].id == user {
        SmallBumpsAllFit(cs[1..], user, clock, now, call, budget, alone, size, share);
      } else {
        SmallBumpsAllFit(cs[1..], user, ts, now, call + 1, budget - size(bump), false, size, share);
      }
    }
  }

  /** A write emits a bump iff some candidate is not the user's own cell and the stalest
      such candidate fits in an event of its own: a larger one blocks all compaction. */
  lemma {:induction false} BumpsSomethingIff(cs: seq<Candidate>, user: CellId, clock: Timestamp, now: Readings,
                                             size: Size)
    ensures var nu := NonUser(cs, user);
      var us := BumpLoop(cs, user, clock, now, 1, BUMP_BYTE_BUDGET, true, size).0;
      us != [] <==>
        nu != [] && size(LocalUpdate(nu[0].id, nu[0].value, NextTimestamp(clock, now(1)))) <= MAX_SOLO_BUMP_BYTES
  {
    if cs != [] && cs[0].id == user {
      BumpsSomethingIff(cs[1..], user, clock, now, size);
    }
  }

  // ---- how many bytes ----

  /** The bytes of some updates together. */
  function Bytes(us: seq<Update>, size: Size): nat {
    if us == [] then 0 else size(us[0]) + Bytes(us[1..], size)
  }

  /** The bump that candidate `c` gets, or would have got, after the bumps `us`. */
  function NextBump(us: seq<Update>, c: Candidate, clock: Timestamp, now: Readings, call: nat): Update {
    LocalUpdate(c.id, c.value, NextTimestamp(if us == [] then clock else us[|us| - 1].cell.ts, now(call + |us|)))
  }

  /** One bump on its own, over 2 KiB and at most 32 KiB. */
  ghost predicate RidesAlone(us: seq<Update>, size: Size) {
    |us| == 1 && 2048 < size(us[0]) <= 32_768
  }

  lemma NextBumpAfterFirst(first: Update, rest: seq<Update>, c: Candidate, clock: Timestamp, now: Readings, call: nat)
    ensures NextBump([first] + rest, c, clock, now, call) == NextBump(rest, c, first.cell.ts, now, call + 1)
  {
  }

  /** What the loop spends, `spent` of the budget being gone. */
  lemma {:induction false} LoopSpends(cs: seq<Candidate>, user: CellId, clock: Timestamp, now: Readings, call: nat,
                                      spent: nat, alone: bool, size: Size)
    requires spent <= 4096
    ensures var us := BumpLoop(cs, user, clock, now, call, 4096 - spent, alone, size).0;
      || (alone && RidesAlone(us, size))
      || (spent + Bytes(us, size) <= 4096 && forall u :: u in us ==> size(u) <= 2048)
  {
    if cs != [] {
      var ts := NextTimestamp(clock, now(call));
      var bump := LocalUpdate(cs[0].id, cs[0].value, ts);
      if cs[0].id == user {
        LoopSpends(cs[1..], user, clock, now, call, spent, alone, size);
      } else if size(bump) <= 2048 && spent + size(bump) <= 4096 {
        LoopSpends(cs[1..], user, ts, now, call + 1, spent + size(bump), false, size);
        var us := BumpLoop(cs, user, clock, now, call, 4096 - spent, alone, size).0;
        assert us[1..] == BumpLoop(cs[1..], user, ts, now, call + 1, 4096 - (spent + size(bump)), false, size).0;
      }
    }
  }

  /** The next candidate's bump does not go with the bumps `us`. */
  ghost predicate TooLarge(bytes: nat, us: seq<Update>, spent: nat, alone: bool, size: Size) {
    || (alone && RidesAlone(us, size))
    || spent + Bytes(us, size) + bytes > 4096
    || (bytes > 2048 && (bytes > 32_768 || !alone || us != []))
  }

  lemma TooLargeBehind(first: Update, rest: seq<Update>, bytes: nat, spent: nat, alone: bool, size: Size)
    requires TooLarge(bytes, rest, spent + size(first), false, size)
    ensures TooLarge(bytes, [first] + rest, spent, alone, size)
  {
    assert ([first] + rest)[1..] == rest;
  }

  /** Where the loop ends. */
  lemma {:induction false} LoopLeavesOut(cs: seq<Candidate>, user: CellId, clock: Timestamp, now: Readings, call: nat,
                                         spent: nat, alone: bool, size: Size)
    requires spent <= 4096
    ensures var nu, us := NonUser(cs, user), BumpLoop(cs, user, clock, now, call, 4096 - spent, alone, size).0;
      && |us| <= |nu|
      && (|us| < |nu| ==>
            TooLarge(size(NextBump(us, nu[|us|], clock, now, call)), us, spent, alone, size))
  {
    hide TooLarge, RidesAlone;
    if cs != [] {
      var ts := NextTimestamp(clock, now(call));
      var bump := LocalUpdate(cs[0].id, cs[0].value, ts);
      if cs[0].id == user {
        LoopLeavesOut(cs[1..], user, clock, now, call, spent, alone, size);
      } else if size(bump) <= 2048 && spent + size(bump) <= 4096 {
        LoopLeavesOut(cs[1..], user, ts, now, call + 1, spent + size(bump), false, size);
        var rest := BumpLoop(cs[1..], user, ts, now, call + 1, 4096 - (spent + size(bump)), false, size).0;
        var nu := NonUser(cs, user);
        if |rest| + 1 < |nu| {
          NextBumpAfterFirst(bump, rest, nu[|rest| + 1], clock, now, call);
          var bytes := size(NextBump([bump] + rest, nu[|rest| + 1], clock, now, call));
          TooLargeBehind(bump, rest, bytes, spent, alone, size);
        }
      } else {
        StopsHere(bump, spent, alone, size);
      }
    }
  }

  lemma StopsHere(bump: Update, spent: nat, alone: bool, size: Size)
    requires size(bump) > 2048 || spent + size(bump) > 4096
    ensures if alone && 2048 < size(bump) <= 32_768
      then forall bytes :: TooLarge(bytes, [bump], spent, alone, size)
      else TooLarge(size(bump), [], spent, alone, size)
  {
  }

  /** The last stamp drawn: that of the last bump, or of the one left out unless it came behind
      a bump that went alone. */
  function LastDraw(us: seq<Update>, nu: seq<Candidate>, clock: Timestamp, now: Readings, call: nat, alone: bool,
                    size: Size): Timestamp
    requires |us| <= |nu|
  {
    if |us| == |nu| || (alone && |us| == 1 && size(us[0]) > 2048)
    then if us == [] then clock else us[|us| - 1].cell.ts
    else NextBump(us, nu[|us|], clock, now, call).cell.ts
  }

  lemma LastDrawBehind(first: Update, rest: seq<Update>, c: Candidate, nu: seq<Candidate>, clock: Timestamp,
                       now: Readings, call: nat, alone: bool, size: Size)
    requires |rest| <= |nu| && size(first) <= 2048
    ensures LastDraw([first] + rest, [c] + nu, clock, now, call, alone, size) ==
      LastDraw(rest, nu, first.cell.ts, now, call + 1, false, size)
  {
    if |rest| < |nu| { NextBumpAfterFirst(first, rest, nu[|rest|], clock, now, call); }
  }

  lemma NothingDrawn(clock: Timestamp, now: Readings, call: nat, alone: bool, size: Size)
    ensures LastDraw([], [], clock, now, call, alone, size) == clock
  {
  }

  lemma LastDrawHere(bump: Update, nu: seq<Candidate>, clock: Timestamp, now: Readings, call: nat, alone: bool,
                     size: Size)
    requires nu != [] && bump == NextBump([], nu[0], clock, now, call)
    ensures LastDraw([], nu, clock, now, call, alone, size) == bump.cell.ts
    ensures alone && size(bump) > 2048 ==> LastDraw([bump], nu, clock, now, call, alone, size) == bump.cell.ts
  {
  }

  /** And there the clock stands. */
  lemma {:induction false} LoopEndsAt(cs: seq<Candidate>, user: CellId, clock: Timestamp, now: Readings, call: nat,
                                      spent: nat, alone: bool, size: Size)
    requires spent <= 4096
    ensures var nu := NonUser(cs, user);
      var (us, end) := BumpLoop(cs, user, clock, now, call, 4096 - spent, alone, size);
      |us| <= |nu| && end == LastDraw(us, nu, clock, now, call, alone, size)
  {
    hide NextTimestamp, LastDraw;
    NothingDrawn(clock, now, call, alone, size);
    if cs != [] {
      var ts := NextTimestamp(clock, now(call));
      var bump := LocalUpdate(cs[0].id, cs[0].value, ts);
      assert NonUser(cs, user) == if cs[0].id == user then NonUser(cs[1..], user) else [cs[0]] + NonUser(cs[1..], user);
      if cs[0].id == user {
        LoopEndsAt(cs[1..], user, clock, now, call, spent, alone, size);
      } else if size(bump) <= 2048 && spent + size(bump) <= 4096 {
        LoopEndsAt(cs[1..], user, ts, now, call + 1, spent + size(bump), false, size);
        var rest := BumpLoop(cs[1..], user, ts, now, call + 1, 4096 - (spent + size(bump)), false, size).0;
        LastDrawBehind(bump, rest, cs[0], NonUser(cs[1..], user), clock, now, call, alone, size);
      } else {
        LastDrawHere(bump, NonUser(cs, user), clock, now, call, alone, size);
      }
    }
  }

  /** The bumps are the candidates' in order, each stamped by the next draw of the clock. */
  lemma {:induction false} BumpsInTurn(cs: seq<Candidate>, user: CellId, clock: Timestamp, now: Readings, call: nat,
                                       budget: nat, alone: bool, size: Size, i: nat)
    requires i < |BumpLoop(cs, user, clock, now, call, budget, alone, size).0|
    ensures var us, nu := BumpLoop(cs, user, clock, now, call, budget, alone, size).0, NonUser(cs, user);
      i < |nu| && us[i] == NextBump(us[..i], nu[i], clock, now, call)
  {
    var ts := NextTimestamp(clock, now(call));
    var bump := LocalUpdate(cs[0].id, cs[0].value, ts);
    if cs[0].id == user {
      BumpsInTurn(cs[1..], user, clock, now, call, budget, alone, size, i);
    } else if i > 0 {
      BumpsInTurn(cs[1..], user, ts, now, call + 1, budget - size(bump), false, size, i - 1);
      var us := BumpLoop(cs, user, clock, now, call, budget, alone, size).0;
      assert us[..i] == [bump] + us[1..][..i - 1];
      NextBumpAfterFirst(bump, us[1..][..i - 1], NonUser(cs, user)[i], clock, now, call);
    }
  }

  /** The bumps of an event: at most 4 KiB of them, each at most 2 KiB, or a single one of at
      most 32 KiB. */
  lemma BumpsStayWithinBudget(s: State, w: Write, size: Size)
    ensures var us := Batch(s, w, size)[1..];
      RidesAlone(us, size) || (Bytes(us, size) <= 4096 && forall u :: u in us ==> size(u) <= 2048)
  {
    assert Batch(s, w, size)[1..] == Bumps(s, w, size).0;
    LoopSpends(w.cands, w.id, UserUpdate(s, w).cell.ts, w.now, 1, 0, true, size);
  }

  /** And none is left out without need: the first candidate left out would have gone over the
      4 KiB, or is over 2 KiB itself, in company or too large to go alone, or came behind one
      that went alone. */
  lemma LeftOutOnlyIfTooLarge(s: State, w: Write, size: Size)
    ensures var us, nu := Batch(s, w, size)[1..], NonUser(w.cands, w.id);
      && |us| <= |nu|
      && (|us| < |nu| ==>
            var bytes := size(NextBump(us, nu[|us|], UserUpdate(s, w).cell.ts, w.now, 1));
            || RidesAlone(us, size)
            || Bytes(us, size) + bytes > 4096
            || (bytes > 2048 && (bytes > 32_768 || us != [])))
  {
    assert Batch(s, w, size)[1..] == Bumps(s, w, size).0;
    LoopLeavesOut(w.cands, w.id, UserUpdate(s, w).cell.ts, w.now, 1, 0, true, size);
  }

  // ---- what one write does ----

  /** Everything a write emits is stamped past the old clock, in ascending order. */
  lemma BatchStamps(s: State, w: Write, size: Size)
    requires LegalWrite(s, w, size)
    ensures Ascending(Batch(s, w, size), s.clock, Bumps(s, w, size).1)
  {
    var first := UserUpdate(s, w);
    StampsAscend(w.cands, w.id, first.cell.ts, w.now, 1, BUMP_BYTE_BUDGET, true, size);
  }

  /** Bumps re-send the current value of a live cell other than the user's own. */
  lemma BumpsKeepValues(s: State, w: Write, size: Size)
    requires LegalWrite(s, w, size)
    ensures forall u :: u in Bumps(s, w, size).0 ==>
      u.id != w.id && Bumpable(s.cells, u.id) && u == LocalUpdate(u.id, s.cells[u.id].value, u.cell.ts)
    ensures DistinctIds(Bumps(s, w, size).0)
  {
    var us := Bumps(s, w, size).0;
    BumpsAreAPrefix(w.cands, w.id, UserUpdate(s, w).cell.ts, w.now, 1, BUMP_BYTE_BUDGET, true, size);
    NonUserSorted(w.cands, w.id);
    var nu := NonUser(w.cands, w.id);
    forall i | 0 <= i < |us|
      ensures us[i].id != w.id && Bumpable(s.cells, us[i].id)
      ensures us[i] == LocalUpdate(us[i].id, s.cells[us[i].id].value, us[i].cell.ts)
    {
      assert nu[i] in w.cands && Describes(s.cells, nu[i]);
    }
  }

  lemma PrependDistinct(first: Update, us: seq<Update>)
    requires DistinctIds(us) && forall u :: u in us ==> u.id != first.id
    ensures DistinctIds([first] + us)
  {
    var batch := [first] + us;
    forall i, j | 0 <= i < j < |batch| ensures batch[i].id != batch[j].id {
      assert batch[j] == us[j - 1] && us[j - 1] in us;
    }
  }

  lemma BatchDistinct(s: State, w: Write, size: Size)
    requires LegalWrite(s, w, size)
    ensures DistinctIds(Batch(s, w, size))
  {
    BumpsKeepValues(s, w, size);
    PrependDistinct(UserUpdate(s, w), Bumps(s, w, size).0);
  }

  /** A write replaces exactly the cells it emits, and leaves the workspace consistent:
      the clock still covers every held timestamp. */
  lemma AfterWriteFacts(s: State, w: Write, size: Size)
    requires LegalWrite(s, w, size)
    ensures AfterWrite(s, w, size).cells == PutAll(s.cells, Batch(s, w, size))
    ensures AfterWrite(s, w, size).clock == Bumps(s, w, size).1
    ensures AfterWrite(s, w, size).tables == s.tables
    ensures Consistent(AfterWrite(s, w, size))
  {
    BatchStamps(s, w, size);
    BumpsKeepValues(s, w, size);
    var batch := Batch(s, w, size);
    var s1 := s.(clock := Bumps(s, w, size).1);
    assert batch[0] == UserUpdate(s, w) && s.clock < batch[0].cell.ts <= s1.clock;
    ApplyAllFacts(s1, batch);
    forall u | u in batch ensures WellFormed(u) && CreatedBy(u.id) <= s.tables {
      if u != UserUpdate(s, w) { assert u in Bumps(s, w, size).0 && u.id in s.cells; }
    }
    ApplyAllConsistent(s1, batch);
  }

  /** Pointwise effect of a write. */
  lemma AfterWriteAt(s: State, w: Write, size: Size)
    requires LegalWrite(s, w, size)
    ensures var n := AfterWrite(s, w, size).cells;
      && (forall id :: id in n <==> id in s.cells || id == w.id)
      && (forall u :: u in Batch(s, w, size) ==> u.id in n && n[u.id] == u.cell)
      && (forall id :: id in s.cells && (forall u :: u in Batch(s, w, size) ==> u.id != id) ==> n[id] == s.cells[id])
  {
    BatchStamps(s, w, size);
    BumpsKeepValues(s, w, size);
    BatchDistinct(s, w, size);
    AfterWriteFacts(s, w, size);
    var batch := Batch(s, w, size);
    assert UserUpdate(s, w) == batch[0];
    FreshBatchReplaces(s.cells, batch, s.clock);
    forall u | u in batch ensures u.id in s.cells || u.id == w.id {
      if u != UserUpdate(s, w) { assert u in Bumps(s, w, size).0; }
    }
  }
}
