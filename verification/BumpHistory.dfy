/** Compaction in the change log: bumps leave no entry. */
module BumpHistory {
  import opened Cells
  import opened States
  import opened Compaction
  import opened History
  import opened Timeline

  /** The log so far ends, for each held cell, with the value the workspace holds. */
  ghost predicate LogAgrees(log: seq<Update>, m: CellMap) {
    forall id :: id in m ==> LastValue(log, id) == Some(m[id].value)
  }

  ghost predicate Repeats(us: seq<Update>, log: seq<Update>) {
    DistinctIds(us) && forall u :: u in us ==> LastValue(log, u.id) == Some(u.cell.value)
  }

  lemma {:induction false} UntouchedLastValue(log: seq<Update>, us: seq<Update>, id: CellId)
    requires forall u :: u in us ==> u.id != id
    ensures LastValue(log + us, id) == LastValue(log, id)
    decreases |us|
  {
    if us == [] {
      assert log + us == log;
    } else {
      var n := |us| - 1;
      assert (log + us)[..|log + us| - 1] == log + us[..n] && us[n] in us;
      UntouchedLastValue(log, us[..n], id);
    }
  }

  /** Updates that each repeat their cell's last value add no edit. */
  lemma {:induction false} RepeatsAddNoEdits(log: seq<Update>, us: seq<Update>)
    requires Repeats(us, log)
    ensures Edits(log + us) == Edits(log)
    decreases |us|
  {
    if us == [] {
      assert log + us == log;
    } else {
      var n := |us| - 1;
      var init, u := us[..n], us[n];
      assert (log + us)[..|log + us| - 1] == log + init && (log + us)[|log + us| - 1] == u && u in us;
      forall v | v in init ensures v.id != u.id && v in us {
        var i :| 0 <= i < n && us[i] == v;
      }
      RepeatsAddNoEdits(log, init);
      UntouchedLastValue(log, init, u.id);
    }
  }

  /** The timeline, as received, without bumps: of each write only what the user wrote. */
  function UserPart(step: Step, us: seq<Update>): seq<Update> {
    if step.Bumping? && us != [] then us[..1] else us
  }

  /** The first `n` events of the run, as received. */
  function LogOf(r: Run, ots: seq<Timestamp>, n: nat): seq<Update>
    requires n <= |r.events| == |ots|
  {
    if n == 0 then [] else LogOf(r, ots, n - 1) + Receive(r.events[n - 1], ots[n - 1])
  }

  function UserLogOf(r: Run, ots: seq<Timestamp>, n: nat): seq<Update>
    requires n <= |r.events| == |ots| == |r.steps|
  {
    if n == 0 then [] else UserLogOf(r, ots, n - 1) + Receive(UserPart(r.steps[n - 1], r.events[n - 1]), ots[n - 1])
  }

  lemma ReceiveSplits(us: seq<Update>, vs: seq<Update>, ots: Timestamp)
    ensures Receive(us + vs, ots) == Receive(us, ots) + Receive(vs, ots)
  {
  }

  lemma ReceiveKeeps(us: seq<Update>, ots: Timestamp)
    ensures DistinctIds(us) ==> DistinctIds(Receive(us, ots))
    ensures forall u :: u in us ==> Stamped(u, ots) in Receive(us, ots)
    ensures forall x :: x in Receive(us, ots) ==> exists u :: u in us && x == Stamped(u, ots)
  {
    forall u | u in us ensures Stamped(u, ots) in Receive(us, ots) {
      var i :| 0 <= i < |us| && us[i] == u;
      assert Receive(us, ots)[i] == Stamped(u, ots);
    }
    forall x | x in Receive(us, ots) ensures exists u :: u in us && x == Stamped(u, ots) {
      var i :| 0 <= i < |us| && Receive(us, ots)[i] == x;
      assert us[i] in us;
    }
  }

  lemma {:induction false} LastOfDistinct(log: seq<Update>, us: seq<Update>, u: Update)
    requires DistinctIds(us) && u in us
    ensures LastValue(log + us, u.id) == Some(u.cell.value)
    decreases |us|
  {
    var n := |us| - 1;
    assert (log + us)[..|log + us| - 1] == log + us[..n] && (log + us)[|log + us| - 1] == us[n];
    if us[n] != u {
      var i :| 0 <= i < |us| && us[i] == u;
      assert us[..n][i] == u;
      LastOfDistinct(log, us[..n], u);
    }
  }

  /** The log goes on agreeing with the workspace, whatever the step. */
  lemma LogKeepsAgreeing(s: State, us: seq<Update>, n: State, log: seq<Update>, ots: Timestamp)
    requires Replaces(s, us, n) && LogAgrees(log, s.cells)
    ensures LogAgrees(log + Receive(us, ots), n.cells)
  {
    ReceiveKeeps(us, ots);
    forall id | id in n.cells ensures LastValue(log + Receive(us, ots), id) == Some(n.cells[id].value) {
      if u :| u in us && u.id == id {
        LastOfDistinct(log, Receive(us, ots), Stamped(u, ots));
      } else {
        assert !Emits(us, id);
        UntouchedLastValue(log, Receive(us, ots), id);
      }
    }
  }

  /** Two logs that read alike: the same edits, and the same last value of every cell. */
  ghost predicate ReadAlike(a: seq<Update>, b: seq<Update>) {
    Edits(a) == Edits(b) && forall id :: LastValue(a, id) == LastValue(b, id)
  }

  lemma OneMoreReadsAlike(a: seq<Update>, b: seq<Update>, u: Update)
    requires ReadAlike(a, b)
    ensures ReadAlike(a + [u], b + [u])
  {
    assert (a + [u])[..|a|] == a && (b + [u])[..|b|] == b;
  }

  lemma {:induction false} MoreReadsAlike(a: seq<Update>, b: seq<Update>, us: seq<Update>)
    requires ReadAlike(a, b)
    ensures ReadAlike(a + us, b + us)
  {
    hide ReadAlike;
    if us == [] {
      assert a + us == a && b + us == b;
    } else {
      var init, last := us[..|us| - 1], us[|us| - 1];
      MoreReadsAlike(a, b, init);
      OneMoreReadsAlike(a + init, b + init, last);
      assert a + us == a + init + [last] && b + us == b + init + [last];
    }
  }

  lemma RepeatsReadAlike(log: seq<Update>, us: seq<Update>)
    requires Repeats(us, log)
    ensures ReadAlike(log + us, log)
  {
    RepeatsAddNoEdits(log, us);
    forall id ensures LastValue(log + us, id) == LastValue(log, id) {
      if u :| u in us && u.id == id { LastOfDistinct(log, us, u); } else { UntouchedLastValue(log, us, id); }
    }
  }

  lemma LastAfter(log: seq<Update>, u: Update, id: CellId)
    ensures LastValue(log + [u], id) == if u.id == id then Some(u.cell.value) else LastValue(log, id)
  {
    assert (log + [u])[..|log|] == log;
  }

  /** The bumps of a write repeat what the log reads after the user's own update. */
  lemma BumpsRepeat(s: State, w: Write, size: Size, log: seq<Update>, ots: Timestamp)
    requires LegalWrite(s, w, size) && LogAgrees(log, s.cells)
    ensures Repeats(Receive(Bumps(s, w, size).0, ots), log + [Stamped(UserUpdate(s, w), ots)])
  {
    hide LastValue, Bumps, BumpLoop, LegalWrite;
    var user, bumps := Stamped(UserUpdate(s, w), ots), Bumps(s, w, size).0;
    BumpsKeepValues(s, w, size);
    ReceiveKeeps(bumps, ots);
    forall x | x in Receive(bumps, ots) ensures LastValue(log + [user], x.id) == Some(x.cell.value) {
      var u :| u in bumps && x == Stamped(u, ots);
      LastAfter(log, user, x.id);
    }
  }

  /** A write with its bumps reads in the change log exactly as the write alone does. */
  lemma BumpsLeaveNoEdits(s: State, w: Write, size: Size, log: seq<Update>, ots: Timestamp)
    requires LegalWrite(s, w, size) && LogAgrees(log, s.cells)
    ensures ReadAlike(log + Receive(Batch(s, w, size), ots), log + Receive([UserUpdate(s, w)], ots))
  {
    hide ReadAlike, Repeats, LastValue, Bumps, LegalWrite, LogAgrees;
    var user, bumps := UserUpdate(s, w), Bumps(s, w, size).0;
    BumpsRepeat(s, w, size, log, ots);
    RepeatsReadAlike(log + [Stamped(user, ots)], Receive(bumps, ots));
    ReceiveSplits([user], bumps, ots);
    assert Receive([user], ots) == [Stamped(user, ots)];
    assert log + Receive(Batch(s, w, size), ots) == log + [Stamped(user, ots)] + Receive(bumps, ots);
  }

  lemma StepReadsAlike(s: State, step: Step, us: seq<Update>, n: State, size: Size, log: seq<Update>, ots: Timestamp)
    requires Takes(s, step, us, n, size) && LogAgrees(log, s.cells)
    ensures ReadAlike(log + Receive(us, ots), log + Receive(UserPart(step, us), ots))
  {
    hide Edits, LastValue;
    if step.Bumping? {
      BumpsLeaveNoEdits(s, step.w, size, log, ots);
      assert us[..1] == [UserUpdate(s, step.w)];
    }
  }

  lemma StepTaken(r: Run, size: Size, k: nat)
    requires IsRun(r, size) && k < |r.steps|
    ensures Takes(r.states[k], r.steps[k], r.events[k], r.states[k + 1], size)
    ensures Replaces(r.states[k], r.events[k], r.states[k + 1])
  {
    EveryStepReplaces(r, size);
  }

  lemma {:induction false} LogAgreesOver(r: Run, size: Size, ots: seq<Timestamp>, n: nat)
    requires IsRun(r, size) && r.states[0] == EMPTY && n <= |r.events| == |ots|
    ensures LogAgrees(LogOf(r, ots, n), r.states[n].cells)
  {
    hide Replaces, Takes, Receive;
    if n > 0 {
      LogAgreesOver(r, size, ots, n - 1);
      StepTaken(r, size, n - 1);
      hide LogAgrees;
      LogKeepsAgreeing(r.states[n - 1], r.events[n - 1], r.states[n], LogOf(r, ots, n - 1), ots[n - 1]);
    }
  }

  lemma ReadAlikeTransitive(a: seq<Update>, b: seq<Update>, c: seq<Update>)
    requires ReadAlike(a, b) && ReadAlike(b, c)
    ensures ReadAlike(a, c)
  {
  }

  /** Over a run, dropping every bump leaves the change log, and what it last read of each
      cell, as it was. */
  lemma {:induction false} RunReadsAlikeWithoutBumps(r: Run, size: Size, ots: seq<Timestamp>, n: nat)
    requires IsRun(r, size) && r.states[0] == EMPTY && n <= |r.events| == |ots|
    ensures ReadAlike(LogOf(r, ots, n), UserLogOf(r, ots, n))
  {
    hide ReadAlike, Replaces, Takes, LogAgrees, UserPart, Receive;
    if n == 0 {
      NothingReadsAlike();
    } else {
      RunReadsAlikeWithoutBumps(r, size, ots, n - 1);
      LogAgreesOver(r, size, ots, n - 1);
      StepTaken(r, size, n - 1);
      StepReadsAlike(r.states[n - 1], r.steps[n - 1], r.events[n - 1], r.states[n], size, LogOf(r, ots, n - 1),
        ots[n - 1]);
      var own := Receive(UserPart(r.steps[n - 1], r.events[n - 1]), ots[n - 1]);
      MoreReadsAlike(LogOf(r, ots, n - 1), UserLogOf(r, ots, n - 1), own);
      ReadAlikeTransitive(LogOf(r, ots, n), LogOf(r, ots, n - 1) + own, UserLogOf(r, ots, n));
    }
  }

  lemma NothingReadsAlike()
    ensures ReadAlike([], [])
  {
  }

  // ---- and every point in time ----

  function Updates(edits: seq<Edit>): seq<Update> {
    if edits == [] then [] else Updates(edits[..|edits| - 1]) + [edits[|edits| - 1].update]
  }

  /** What erasing leaves is what the change log lists. */
  lemma {:induction false} ErasedIsWhatTheLogLists(events: seq<Update>)
    ensures EraseBumps(events) == Updates(Edits(events))
  {
    if events != [] {
      var n, es := |events| - 1, Edits(events);
      ErasedIsWhatTheLogLists(events[..n]);
      if LastValue(events[..n], events[n].id) == Some(events[n].cell.value) {
        assert es == Edits(events[..n]);
      } else {
        assert es[..|es| - 1] == Edits(events[..n]);
      }
    }
  }

  ghost predicate Ascends(ots: seq<Timestamp>) {
    forall i, j :: 0 <= i < j < |ots| ==> ots[i] <= ots[j]
  }

  /** The log with or without bumps ends below the workspace's clock and the next stamp. */
  ghost predicate EndsBelow(log: seq<Update>, clock: Timestamp, last: Timestamp) {
    SingleWriter(log) && forall u :: u in log ==> u.cell.ts <= clock && ServerOrZero(u) <= last
  }

  lemma LaterEventKeepsOrder(log: seq<Update>, us: seq<Update>, ots: Timestamp, clock: Timestamp, last: Timestamp,
                             clock2: Timestamp)
    requires EndsBelow(log, clock, last) && last <= ots && clock <= clock2
    requires DistinctIds(us) && forall u :: u in us ==> clock < u.cell.ts <= clock2
    ensures EndsBelow(log + Receive(us, ots), clock2, ots)
  {
    var more := log + Receive(us, ots);
    ReceiveKeeps(us, ots);
    forall i, j | 0 <= i < j < |more|
      ensures ServerOrZero(more[i]) <= ServerOrZero(more[j])
        && (more[i].id == more[j].id ==> more[i].cell.ts < more[j].cell.ts)
    {
      if i < |log| { assert log[i] in log; }
      if j >= |log| { assert us[j - |log|] in us; }
    }
    forall u | u in more ensures u.cell.ts <= clock2 && ServerOrZero(u) <= ots {
      if u !in log { assert u in Receive(us, ots); }
    }
  }

  lemma UserPartIsPart(step: Step, us: seq<Update>)
    requires DistinctIds(us)
    ensures DistinctIds(UserPart(step, us)) && forall u :: u in UserPart(step, us) ==> u in us
  {
  }

  lemma {:induction false} LogsInOrder(r: Run, size: Size, ots: seq<Timestamp>, n: nat)
    requires IsRun(r, size) && r.states[0] == EMPTY && n <= |r.events| == |ots| && Ascends(ots)
    ensures EndsBelow(LogOf(r, ots, n), r.states[n].clock, if n == 0 then 0 else ots[n - 1])
    ensures EndsBelow(UserLogOf(r, ots, n), r.states[n].clock, if n == 0 then 0 else ots[n - 1])
  {
    if n > 0 {
      LogsInOrder(r, size, ots, n - 1);
      EveryStepReplaces(r, size);
      var s, us, t := r.states[n - 1], r.events[n - 1], r.states[n];
      assert Replaces(s, us, t);
      UserPartIsPart(r.steps[n - 1], us);
      var last := if n == 1 then 0 else ots[n - 2];
      LaterEventKeepsOrder(LogOf(r, ots, n - 1), us, ots[n - 1], s.clock, last, t.clock);
      LaterEventKeepsOrder(UserLogOf(r, ots, n - 1), UserPart(r.steps[n - 1], us), ots[n - 1], s.clock, last, t.clock);
    }
  }

  /** Over a whole run, dropping every bump leaves the change log as it was and, if the server's
      stamps do not fall, the value of every cell at every point in time. */
  lemma ErasingBumpsKeepsHistory(r: Run, size: Size, ots: seq<Timestamp>, target: Timestamp, id: CellId)
    requires IsRun(r, size) && r.states[0] == EMPTY && |r.events| == |ots| && Ascends(ots)
    ensures var all, own := LogOf(r, ots, |ots|), UserLogOf(r, ots, |ots|);
      Edits(all) == Edits(own) && ValueOf(AsOf(all, target), id) == ValueOf(AsOf(own, target), id)
  {
    var all, own := LogOf(r, ots, |ots|), UserLogOf(r, ots, |ots|);
    RunReadsAlikeWithoutBumps(r, size, ots, |ots|);
    LogsInOrder(r, size, ots, |ots|);
    ErasedIsWhatTheLogLists(all);
    ErasedIsWhatTheLogLists(own);
    ErasingKeepsEveryPoint(all, target, id);
    ErasingKeepsEveryPoint(own, target, id);
  }
}
