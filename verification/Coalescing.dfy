/** A writer's timeline as the send queue delivers it: stretches of writes in one event each. */
module Coalescing {
  import opened Cells
  import opened Reads
  import opened States
  import opened Compaction
  import opened Timeline
  import opened Coverage

  /** The points at which the queue was flushed: event `j` of the room carries the writes from
      point `cuts[j]` to point `cuts[j + 1]`. */
  ghost predicate AreCuts(cuts: seq<nat>, n: nat) {
    && cuts != [] && cuts[0] == 0 && cuts[|cuts| - 1] == n
    && forall i, j :: 0 <= i < j < |cuts| ==> cuts[i] < cuts[j]
  }

  /** `u` is the last update of its cell among the events `lo` to `hi`. */
  ghost predicate LastWithin(r: Run, lo: nat, hi: nat, u: Update)
    requires lo <= hi <= |r.events|
  {
    exists k :: lo <= k < hi && u in r.events[k] && !EmittedWithin(r, k + 1, hi, u.id)
  }

  /** One batch: of each cell written in the stretch the last update, in any order. */
  ghost predicate IsBatch(us: seq<Update>, r: Run, lo: nat, hi: nat)
    requires lo <= hi <= |r.events|
  {
    DistinctIds(us) && forall u :: u in us <==> LastWithin(r, lo, hi, u)
  }

  /** `trail` is the run with every stretch between two cuts made one event. */
  ghost predicate Coalesces(trail: Run, r: Run, cuts: seq<nat>) {
    && |r.states| == |r.events| + 1 && AreCuts(cuts, |r.events|)
    && |trail.states| == |cuts| && |trail.events| == |cuts| - 1
    && (forall j :: 0 <= j < |cuts| ==> trail.states[j] == r.states[cuts[j]])
    && (forall j :: 0 <= j < |trail.events| ==> IsBatch(trail.events[j], r, cuts[j], cuts[j + 1]))
  }

  lemma BatchEmits(us: seq<Update>, r: Run, lo: nat, hi: nat, id: CellId)
    requires lo <= hi <= |r.events| && IsBatch(us, r, lo, hi)
    ensures Emits(us, id) <==> EmittedWithin(r, lo, hi, id)
  {
    if EmittedWithin(r, lo, hi, id) {
      var k := LastEmissionExists(r, lo, hi, id);
      var u :| u in r.events[k] && u.id == id;
      assert LastWithin(r, lo, hi, u);
    }
    if Emits(us, id) {
      var u :| u in us && u.id == id;
      var k :| lo <= k < hi && u in r.events[k] && !EmittedWithin(r, k + 1, hi, u.id);
      assert Emits(r.events[k], id);
    }
  }

  lemma {:induction false} CellsStay(r: Run, lo: nat, hi: nat, id: CellId)
    requires IsTrail(r) && lo <= hi <= |r.events| && id in r.states[lo].cells
    ensures id in r.states[hi].cells
    decreases hi
  {
    if lo < hi {
      CellsStay(r, lo, hi - 1, id);
      assert Replaces(r.states[hi - 1], r.events[hi - 1], r.states[hi]);
    }
  }

  lemma ClockGrows(r: Run, lo: nat, hi: nat)
    requires IsTrail(r) && lo <= hi <= |r.events|
    ensures r.states[lo].clock <= r.states[hi].clock
    ensures lo < hi ==> Consistent(r.states[hi])
  {
    UntouchedOver(r, lo, hi, CellId("", "", ""));
    if lo < hi { assert Replaces(r.states[hi - 1], r.events[hi - 1], r.states[hi]); }
  }

  lemma UpdateIsHeld(r: Run, k: nat, hi: nat, u: Update)
    requires IsTrail(r) && k < hi <= |r.events| && u in r.events[k] && !EmittedWithin(r, k + 1, hi, u.id)
    ensures r.states[k].clock < u.cell.ts <= r.states[k + 1].clock
    ensures u.id in r.states[hi].cells && r.states[hi].cells[u.id] == u.cell
  {
    hide Bumpable, Consistent, DistinctIds, EmittedWithin;
    assert Replaces(r.states[k], r.events[k], r.states[k + 1]);
    assert u == Update(u.id, u.cell);
    HeldForever(r, k + 1, hi, u.id, u.cell);
  }

  lemma LastWithinHolds(r: Run, lo: nat, hi: nat, u: Update)
    requires IsTrail(r) && lo <= hi <= |r.events| && LastWithin(r, lo, hi, u)
    ensures r.states[lo].clock < u.cell.ts <= r.states[hi].clock
    ensures u.id in r.states[hi].cells && r.states[hi].cells[u.id] == u.cell
  {
    hide Replaces, EmittedWithin;
    var k :| lo <= k < hi && u in r.events[k] && !EmittedWithin(r, k + 1, hi, u.id);
    UpdateIsHeld(r, k, hi, u);
    ClockGrows(r, lo, k);
    ClockGrows(r, k + 1, hi);
  }

  lemma NotInBatchIsCarriedOver(us: seq<Update>, r: Run, lo: nat, hi: nat, id: CellId)
    requires IsTrail(r) && lo < hi <= |r.events| && IsBatch(us, r, lo, hi) && !Emits(us, id)
    ensures CarriedOver(r.states[lo].cells, r.states[hi].cells, id)
    ensures Bumpable(r.states[hi].cells, id) ==> Bumpable(r.states[lo].cells, id)
  {
    hide Replaces;
    BatchEmits(us, r, lo, hi, id);
    UntouchedOver(r, lo, hi, id);
  }

  /** A batch does to the workspace what the writes it carries did, one after the other. */
  lemma BatchReplaces(us: seq<Update>, r: Run, lo: nat, hi: nat)
    requires IsTrail(r) && lo < hi <= |r.events| && IsBatch(us, r, lo, hi)
    ensures Replaces(r.states[lo], us, r.states[hi])
  {
    hide IsTrail, LastWithin, Emits, Bumpable, Consistent, DistinctIds;
    TrailHasStates(r);
    ClockGrows(r, lo, hi);
    forall u | u in us
      ensures r.states[lo].clock < u.cell.ts <= r.states[hi].clock
      ensures u.id in r.states[hi].cells && r.states[hi].cells[u.id] == u.cell
    {
      LastWithinHolds(r, lo, hi, u);
    }
    forall id | !Emits(us, id)
      ensures CarriedOver(r.states[lo].cells, r.states[hi].cells, id)
      ensures Bumpable(r.states[hi].cells, id) ==> Bumpable(r.states[lo].cells, id)
    {
      NotInBatchIsCarriedOver(us, r, lo, hi, id);
    }
    forall id | id in r.states[lo].cells ensures id in r.states[hi].cells { CellsStay(r, lo, hi, id); }
  }

  lemma TrailHasStates(r: Run)
    requires IsTrail(r)
    ensures |r.states| == |r.events| + 1
  {
  }

  /** A coalesced run is a trail: every result about trails holds of it. */
  lemma CoalescedIsTrail(trail: Run, r: Run, cuts: seq<nat>)
    requires IsTrail(r) && Coalesces(trail, r, cuts)
    ensures IsTrail(trail)
  {
    forall j | 0 <= j < |trail.events| ensures Replaces(trail.states[j], trail.events[j], trail.states[j + 1]) {
      BatchReplaces(trail.events[j], r, cuts[j], cuts[j + 1]);
    }
  }

  lemma EmittedSplits(r: Run, i: nat, j: nat, l: nat, id: CellId)
    requires i <= j <= l <= |r.events|
    ensures EmittedWithin(r, i, l, id) <==> EmittedWithin(r, i, j, id) || EmittedWithin(r, j, l, id)
    ensures j < |r.events| ==> (EmittedWithin(r, j, j + 1, id) <==> Emits(r.events[j], id))
  {
  }

  lemma CutsAscend(cuts: seq<nat>, n: nat, a: nat, b: nat)
    requires AreCuts(cuts, n) && a <= b < |cuts|
    ensures cuts[a] <= cuts[b] <= n
    ensures a < b ==> cuts[a] < cuts[b]
  {
    assert b < |cuts| - 1 ==> cuts[b] < cuts[|cuts| - 1];
  }

  /** The events of the room emit what the stretches of the run emit. */
  lemma {:induction false} CoalescedEmits(trail: Run, r: Run, cuts: seq<nat>, a: nat, b: nat, id: CellId)
    requires Coalesces(trail, r, cuts) && a <= b < |cuts|
    ensures cuts[a] <= cuts[b] <= |r.events|
    ensures EmittedWithin(trail, a, b, id) <==> EmittedWithin(r, cuts[a], cuts[b], id)
    decreases b
  {
    hide AreCuts, IsBatch;
    CutsAscend(cuts, |r.events|, a, b);
    if a < b {
      hide EmittedWithin;
      var m := b - 1;
      CutsAscend(cuts, |r.events|, a, m);
      CutsAscend(cuts, |r.events|, m, b);
      CoalescedEmits(trail, r, cuts, a, m, id);
      EmittedSplits(trail, a, m, b, id);
      EmittedSplits(r, cuts[a], cuts[m], cuts[b], id);
      assert IsBatch(trail.events[m], r, cuts[m], cuts[m + 1]);
      BatchEmits(trail.events[m], r, cuts[m], cuts[b], id);
    }
  }

  /** The coverage rule on coalesced events: a page without a new cell that holds a cell the
      writer only bumped since proves coverage as it does for single writes. */
  lemma CoalescedPageCovers(trail: Run, r: Run, cuts: seq<nat>, size: Size, lo: nat, hi: nat, n: nat, c: CellId,
                            id: CellId)
    requires IsRun(r, size) && Coalesces(trail, r, cuts) && lo < hi <= n < |cuts|
    requires PageAddsNothing(trail, lo, hi, n) && EmittedWithin(trail, lo, hi, c)
    requires cuts[n] <= |r.events| && OnlyBumpedSince(r, size, cuts[hi], cuts[n], c)
    requires Bumpable(trail.states[n].cells, id)
    ensures EmittedWithin(trail, lo, n, id)
  {
    CoalescedEmits(trail, r, cuts, lo, hi, c);
    CoalescedEmits(trail, r, cuts, lo, n, id);
    CoalescedEmits(trail, r, cuts, hi, n, id);
    assert PageAddsNothing(r, cuts[lo], cuts[hi], cuts[n]) by {
      forall x | EmittedWithin(r, cuts[lo], cuts[hi], x) ensures EmittedWithin(r, cuts[hi], cuts[n], x) {
        CoalescedEmits(trail, r, cuts, lo, hi, x);
        CoalescedEmits(trail, r, cuts, hi, n, x);
      }
    }
    PageStopCovers(r, size, cuts[lo], cuts[hi], cuts[n], c, id);
  }
}
