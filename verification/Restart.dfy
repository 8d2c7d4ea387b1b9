/** A snapshot plus a grace-bounded walk is a full replay, over any number of restarts. */
module Restart {
  import opened Cells
  import opened States
  import opened Pages

  /** The server keeps events in stream order; timestamps may disagree with it by no more
      than the grace margin: nothing deeper is stamped more than that past anything newer. */
  ghost predicate Skewed(stream: seq<Event>) {
    forall i, j :: 0 <= i < j < |stream| && TimeOf(stream[i]).Some? && TimeOf(stream[j]).Some?
      ==> TimeOf(stream[i]).value <= TimeOf(stream[j]).value + REORDER_GRACE_MS
  }

  function Reverse(es: seq<Event>): (r: seq<Event>)
    ensures |r| == |es| && forall i :: 0 <= i < |es| ==> r[i] == es[|es| - 1 - i]
  {
    if es == [] then [] else Reverse(es[1..]) + [es[0]]
  }

  /** The pages the server hands out: the stream newest first, none of them empty. */
  ghost predicate PagesOf(pages: seq<Page>, stream: seq<Event>) {
    Flatten(pages) == Reverse(stream) && forall k :: 0 <= k < |pages| ==> pages[k] != []
  }

  lemma {:induction false} MarkerBounds(es: seq<Event>, i: nat)
    requires i < |es| && es[i].CellEvent? && es[i].us != []
    ensures es[i].ots <= MarkerOf(es)
  {
    if i < |es| - 1 { MarkerBounds(es[..|es| - 1], i); }
  }

  lemma {:induction false} MarkerAttained(es: seq<Event>) returns (i: nat)
    requires MarkerOf(es) > 0
    ensures i < |es| && es[i].CellEvent? && es[i].us != [] && es[i].ots == MarkerOf(es)
  {
    var n := |es| - 1;
    if MarkerOf(es[..n]) == MarkerOf(es) { i := MarkerAttained(es[..n]); } else { i := n; }
  }

  lemma {:induction false} OldestAttained(es: seq<Event>) returns (i: nat)
    requires Oldest(es).Some?
    ensures i < |es| && TimeOf(es[i]) == Oldest(es)
  {
    var n := |es| - 1;
    if Oldest(es[..n]) == Oldest(es) { i := OldestAttained(es[..n]); } else { i := n; }
  }

  /** The events that `walked` pages hold are a newest-first prefix: event `at` of page `k`. */
  lemma PlaceInStream(pages: seq<Page>, stream: seq<Event>, k: nat, at: nat) returns (j: nat)
    requires PagesOf(pages, stream) && k < |pages| && at < |pages[k]|
    ensures |stream| - |Flatten(pages[..k + 1])| <= j < |stream| && stream[j] == pages[k][at]
  {
    FlattenSplit(pages, k);
    FlattenSnoc(pages, k);
    var pos := |Flatten(pages[..k])| + at;
    assert Flatten(pages)[pos] == pages[k][at];
    j := |stream| - 1 - pos;
  }

  /** The grace stop misses nothing: if the snapshot holds the first `p` events and its marker
      is theirs, the pages walked when the rule fires hold every event after them. */
  lemma GraceStopMissesNothing(stream: seq<Event>, p: nat, pages: seq<Page>, walked: nat)
    requires p <= |stream| && Skewed(stream) && PagesOf(pages, stream)
    requires 0 < walked <= |pages| && CaughtUp(true, Oldest(pages[walked - 1]), MarkerOf(stream[..p]))
    ensures |Flatten(pages[..walked])| >= |stream| - p
  {
    var at := OldestAttained(pages[walked - 1]);
    var j := PlaceInStream(pages, stream, walked - 1, at);
    var m := MarkerAttained(stream[..p]);
    assert TimeOf(stream[m]).value > TimeOf(stream[j]).value + REORDER_GRACE_MS;
  }

  /** The hypothesis is needed: an event stamped more than the margin before a snapshot's
      marker, yet arriving after it, ends the walk and hides the event between them. */
  lemma LargerSkewLosesAnEvent(u: Update, low: Timestamp, high: Timestamp)
    requires low + REORDER_GRACE_MS < high
    ensures var held, missed, late := CellEvent(high, [u]), CellEvent(high, [u]), CellEvent(low, [u]);
      var stream, pages := [held, missed, late], [[late], [missed], [held]];
      && !Skewed(stream) && PagesOf(pages, stream)
      && CaughtUp(true, Oldest(pages[0]), MarkerOf(stream[..1]))
      && |Flatten(pages[..1])| < |stream| - 1
  {
    var held, missed, late := CellEvent(high, [u]), CellEvent(high, [u]), CellEvent(low, [u]);
    var stream, pages := [held, missed, late], [[late], [missed], [held]];
    assert Oldest([]) == None && MarkerOf([]) == 0 && Flatten([]) == [];
    assert stream[..1] == [held] && [held][..0] == [] && [late][..0] == [];
    assert TimeOf(stream[0]).value > TimeOf(stream[2]).value + REORDER_GRACE_MS;
    assert pages[..2] == [[late], [missed]] && pages[..2][..1] == [[late]] && pages[..1] == [[late]]
      && [[late]][..0] == [];
    assert Flatten([[late]]) == [late] && Flatten(pages[..2]) == [late, missed]
      && Flatten(pages) == [late, missed, held];
    assert Reverse(stream) == [late, missed, held];
  }

  // ---- any number of restarts ----

  /** A device: its workspace, its snapshot marker, how much of the stream it has taken in,
      and, for the proof, every update it has ever applied. */
  datatype Client = Client(state: State, marker: Timestamp, covered: nat, applied: seq<Update>)

  const FRESH: Client := Client(EMPTY, 0, 0, [])

  datatype Step =
    | Sync(upto: nat)
    | LocalWrite(u: Update)
    | Reopen(cells: seq<Update>, length: nat, pages: seq<Page>, walked: nat)

  /** One step against a stream that has reached at least the length the step sees.  A
      reopening saves every cell, loads them and walks the room as it is then, with both stop
      rules on; a walk that the coverage rule alone ends is the subject of the sessions. */
  ghost predicate Steps(stream: seq<Event>, c: Client, step: Step, d: Client) {
    match step
    case Sync(upto) =>
      && c.covered <= upto <= |stream|
      && d.state == ApplyAll(c.state, ReceivedAll(stream[c.covered..upto]))
      && d.marker == Max(c.marker, MarkerOf(stream[c.covered..upto]))
      && d.covered == upto && d.applied == c.applied + ReceivedAll(stream[c.covered..upto])
    case LocalWrite(u) =>
      && d == c.(state := Apply(c.state, u), applied := c.applied + [u])
    case Reopen(cells, length, pages, walked) =>
      && c.covered <= length <= |stream| && PagesOf(pages, stream[..length])
      && ListsExactly(cells, c.state.cells)
      && Walks(pages, walked, true, c.marker, true) && !EndedByCoverage(pages, walked, true, c.marker)
      && d.state == WalkedState(Loaded(EMPTY, cells, c.state.clock), pages, walked)
      && d.marker == WalkedMarker(c.marker, pages, walked)
      && d.covered == length && d.applied == c.applied + ReceivedAll(Flatten(pages[..walked]))
  }

  /** The device holds the merge of what it has applied, which is all of the stream it has
      taken in and the writes of its own. */
  ghost predicate InStep(stream: seq<Event>, local: seq<Update>, c: Client) {
    && c.covered <= |stream|
    && c.state == ApplyAll(EMPTY, c.applied)
    && c.marker == MarkerOf(stream[..c.covered])
    && (forall u :: u in ReceivedAll(stream[..c.covered]) ==> u in c.applied)
    && (forall u :: u in local ==> u in c.applied)
    && (forall u :: u in c.applied ==> u in ReceivedAll(stream[..c.covered]) || u in local)
  }

  lemma SyncKeepsInStep(stream: seq<Event>, local: seq<Update>, c: Client, upto: nat, d: Client)
    requires InStep(stream, local, c) && Steps(stream, c, Sync(upto), d)
    ensures InStep(stream, local, d)
  {
    assert stream[..upto] == stream[..c.covered] + stream[c.covered..upto];
    ReceivedAllAppend(stream[..c.covered], stream[c.covered..upto]);
    MarkerAppend(stream[..c.covered], stream[c.covered..upto]);
    ApplyAllAppend(EMPTY, c.applied, ReceivedAll(stream[c.covered..upto]));
  }

  lemma WriteKeepsInStep(stream: seq<Event>, local: seq<Update>, c: Client, u: Update, d: Client)
    requires InStep(stream, local, c) && Steps(stream, c, LocalWrite(u), d)
    ensures InStep(stream, local + [u], d)
  {
    assert d.applied[..|d.applied| - 1] == c.applied;
  }

  /** Reloading a snapshot of merged updates gives the same workspace back. */
  lemma ReloadIsIdentity(s: State, applied: seq<Update>, cells: seq<Update>)
    requires s == ApplyAll(EMPTY, applied) && ListsExactly(cells, s.cells)
    requires forall u :: u in applied ==> WellFormed(u)
    ensures Loaded(EMPTY, cells, s.clock) == s
  {
    ApplyAllConsistent(EMPTY, applied);
    SnapshotRestores(s, cells);
    forall t | t in s.tables ensures HasCells(s, t) {
      ApplyAllFacts(EMPTY, applied);
      var u :| u in applied && t in CreatedBy(u.id);
      PutAllKeepsWinner(map[], applied, u.id);
      assert u == Update(u.id, u.cell) && Offered(map[], applied, u.id, u.cell);
      assert u.id in s.cells;
    }
    assert (set t | t in s.tables && HasCells(s, t)) == s.tables;
  }

  /** What the pages read hold: the newest events of the stream. */
  lemma WalkedAreNewest(pages: seq<Page>, stream: seq<Event>, walked: nat)
    requires PagesOf(pages, stream) && walked <= |pages|
    ensures var es := Flatten(pages[..walked]);
      |es| <= |stream| && forall i :: 0 <= i < |es| ==> es[i] == stream[|stream| - 1 - i]
  {
    assert pages == pages[..walked] + pages[walked..];
    FlattenAppend(pages[..walked], pages[walked..]);
    var es := Flatten(pages[..walked]);
    forall i | 0 <= i < |es| ensures es[i] == stream[|stream| - 1 - i] {
      assert es[i] == Flatten(pages)[i];
    }
  }

  /** A walk bounded by the snapshot reads every event the snapshot does not hold. */
  lemma BoundedWalkReachesTheSnapshot(stream: seq<Event>, p: nat, pages: seq<Page>, walked: nat)
    requires p <= |stream| && Skewed(stream) && PagesOf(pages, stream)
    requires Walks(pages, walked, true, MarkerOf(stream[..p]), true)
    requires !EndedByCoverage(pages, walked, true, MarkerOf(stream[..p]))
    ensures walked <= |pages| && |Flatten(pages[..walked])| >= |stream| - p
  {
    if StopsAfter(pages, walked, true, MarkerOf(stream[..p]), true) {
      GraceStopMissesNothing(stream, p, pages, walked);
    } else {
      assert pages[..walked] == pages;
    }
  }

  lemma {:induction false} EventInPrefix(stream: seq<Event>, es: seq<Event>, p: nat, u: Update)
    requires p <= |stream| && |es| >= |stream| - p && |es| <= |stream|
    requires forall i :: 0 <= i < |es| ==> es[i] == stream[|stream| - 1 - i]
    ensures u in ReceivedAll(stream) <==> u in ReceivedAll(stream[..p]) || u in ReceivedAll(es)
  {
    if u in ReceivedAll(stream) {
      var i := ReceivedFromOne(stream, u);
      if i < p { InReceivedAll(stream[..p], i, u); } else { InReceivedAll(es, |stream| - 1 - i, u); }
    }
    if u in ReceivedAll(stream[..p]) {
      var i := ReceivedFromOne(stream[..p], u);
      InReceivedAll(stream, i, u);
    }
    if u in ReceivedAll(es) {
      var i := ReceivedFromOne(es, u);
      InReceivedAll(stream, |stream| - 1 - i, u);
    }
  }

  lemma {:induction false} MarkerAtMost(es: seq<Event>, bound: Timestamp)
    requires forall e :: e in es && e.CellEvent? && e.us != [] ==> e.ots <= bound
    ensures MarkerOf(es) <= bound
  {
    if es != [] {
      assert es[|es| - 1] in es;
      MarkerAtMost(es[..|es| - 1], bound);
    }
  }

  lemma MarkerOfPart(part: seq<Event>, whole: seq<Event>)
    requires forall e :: e in part ==> e in whole
    ensures MarkerOf(part) <= MarkerOf(whole)
  {
    forall e | e in part && e.CellEvent? && e.us != [] ensures e.ots <= MarkerOf(whole) {
      var i :| 0 <= i < |whole| && whole[i] == e;
      MarkerBounds(whole, i);
    }
    MarkerAtMost(part, MarkerOf(whole));
  }

  lemma MarkerOfBoth(whole: seq<Event>, a: seq<Event>, b: seq<Event>)
    requires forall e :: e in whole <==> e in a || e in b
    ensures Max(MarkerOf(a), MarkerOf(b)) == MarkerOf(whole)
  {
    MarkerOfPart(a, whole);
    MarkerOfPart(b, whole);
    MarkerAppend(a, b);
    MarkerOfPart(whole, a + b);
  }

  lemma PrefixAndWalk(stream: seq<Event>, es: seq<Event>, p: nat)
    requires p <= |stream| && |stream| - p <= |es| <= |stream|
    requires forall i :: 0 <= i < |es| ==> es[i] == stream[|stream| - 1 - i]
    ensures forall e :: e in stream <==> e in stream[..p] || e in es
  {
    forall e | e in stream ensures e in stream[..p] || e in es {
      var i :| 0 <= i < |stream| && stream[i] == e;
      if i >= p { assert es[|stream| - 1 - i] == e; } else { assert stream[..p][i] == e; }
    }
  }

  ghost predicate SafeInputs(stream: seq<Event>, local: seq<Update>) {
    && (forall u :: u in ReceivedAll(stream) ==> WellFormed(u))
    && (forall u :: u in local ==> WellFormed(u))
  }

  lemma AppliedWellFormed(stream: seq<Event>, local: seq<Update>, c: Client)
    requires SafeInputs(stream, local) && InStep(stream, local, c)
    ensures forall u :: u in c.applied ==> WellFormed(u)
  {
    assert stream == stream[..c.covered] + stream[c.covered..];
    ReceivedAllAppend(stream[..c.covered], stream[c.covered..]);
  }

  lemma ReopenKeepsInStep(stream: seq<Event>, local: seq<Update>, c: Client, cells: seq<Update>, length: nat,
                          pages: seq<Page>, walked: nat, d: Client)
    requires SafeInputs(stream, local) && Skewed(stream)
    requires InStep(stream, local, c) && Steps(stream, c, Reopen(cells, length, pages, walked), d)
    ensures InStep(stream, local, d)
  {
    var now, p, es := stream[..length], c.covered, Flatten(pages[..walked]);
    assert now[..p] == stream[..p];
    AppliedWellFormed(stream, local, c);
    ReloadIsIdentity(c.state, c.applied, cells);
    BoundedWalkReachesTheSnapshot(now, p, pages, walked);
    WalkedAreNewest(pages, now, walked);
    WalkedPages(c.state, c.marker, pages, walked);
    ApplyAllAppend(EMPTY, c.applied, ReceivedAll(es));
    PrefixAndWalk(now, es, p);
    MarkerOfBoth(now, now[..p], es);
    forall u ensures u in ReceivedAll(now) <==> u in ReceivedAll(now[..p]) || u in ReceivedAll(es) {
      EventInPrefix(now, es, p, u);
    }
  }

  /** Local writes made along the way. */
  function Writes(steps: seq<Step>): seq<Update> {
    if steps == [] then []
    else
      var last := steps[|steps| - 1];
      Writes(steps[..|steps| - 1]) + if last.LocalWrite? then [last.u] else []
  }

  ghost predicate IsHistory(stream: seq<Event>, clients: seq<Client>, steps: seq<Step>) {
    && |clients| == |steps| + 1 && clients[0] == FRESH
    && forall k :: 0 <= k < |steps| ==> Steps(stream, clients[k], steps[k], clients[k + 1])
  }

  /** Whatever a device does, syncing, writing, closing and reopening any number of times, it
      keeps holding everything up to the point it has reached. */
  lemma {:induction false} AlwaysInStep(stream: seq<Event>, clients: seq<Client>, steps: seq<Step>)
    requires IsHistory(stream, clients, steps) && Skewed(stream) && SafeInputs(stream, Writes(steps))
    ensures InStep(stream, Writes(steps), clients[|steps|])
  {
    if steps == [] {
      assert stream[..0] == [];
    } else {
      var n := |steps| - 1;
      var before := Writes(steps[..n]);
      assert Writes(steps) == before + if steps[n].LocalWrite? then [steps[n].u] else [];
      AlwaysInStep(stream, clients[..n + 1], steps[..n]);
      assert Steps(stream, clients[n], steps[n], clients[n + 1]);
      match steps[n] {
        case Sync(upto) => SyncKeepsInStep(stream, before, clients[n], upto, clients[n + 1]);
        case LocalWrite(u) => WriteKeepsInStep(stream, before, clients[n], u, clients[n + 1]);
        case Reopen(cells, length, pages, walked) =>
          ReopenKeepsInStep(stream, before, clients[n], cells, length, pages, walked, clients[n + 1]);
      }
    }
  }

  /** Once a device has reached the end of the stream, through any number of restarts, it
      holds exactly what replaying the whole room (and its own writes) gives. */
  lemma RestartsEqualFullReplay(stream: seq<Event>, clients: seq<Client>, steps: seq<Step>, full: seq<Update>)
    requires IsHistory(stream, clients, steps) && Skewed(stream) && SafeInputs(stream, Writes(steps))
    requires clients[|steps|].covered == |stream|
    requires forall u :: u in full <==> u in ReceivedAll(stream) || u in Writes(steps)
    requires TiesOutranked(map[], full)
    ensures clients[|steps|].state == ApplyAll(EMPTY, full)
    ensures clients[|steps|].marker == MarkerOf(stream)
  {
    var c := clients[|steps|];
    AlwaysInStep(stream, clients, steps);
    assert stream[..|stream|] == stream;
    ReplicasConverge(EMPTY, full, c.applied);
  }
}
