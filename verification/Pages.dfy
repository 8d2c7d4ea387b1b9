/** The room as a cold start reads it, and what the backward walk reads before a rule ends it. */
module Pages {
  import opened Cells
  import opened States

  // The room is an append-only stream of events.  The server hands it out newest first, in
  // pages; an event's server timestamp may disagree with its place in the stream.

  const REORDER_GRACE_MS: int := 30_000

  datatype Event =
    | CellEvent(ots: Timestamp, us: seq<Update>)
    | Undecryptable(time: Option<Timestamp>, id: Option<string>)
    | Other(time: Option<Timestamp>)

  type Page = seq<Event>

  function TimeOf(e: Event): Option<Timestamp> {
    match e
    case CellEvent(ots, _) => Some(ots)
    case Undecryptable(time, _) => time
    case Other(time) => time
  }

  function Min(a: Option<Timestamp>, b: Option<Timestamp>): Option<Timestamp> {
    if a.None? then b else if b.None? then a else if b.value < a.value then b else a
  }

  /** The oldest timestamp on a page. */
  function Oldest(es: seq<Event>): Option<Timestamp> {
    if es == [] then None else Min(Oldest(es[..|es| - 1]), TimeOf(es[|es| - 1]))
  }

  function Received(e: Event): seq<Update> {
    if e.CellEvent? then Receive(e.us, e.ots) else []
  }

  function ReceivedAll(es: seq<Event>): seq<Update> {
    if es == [] then [] else ReceivedAll(es[..|es| - 1]) + Received(es[|es| - 1])
  }

  function CellsOf(es: seq<Event>): set<CellId> {
    set u | u in ReceivedAll(es) :: u.id
  }

  /** The highest timestamp of an event that carries cells: where a snapshot resumes. */
  function MarkerOf(es: seq<Event>): Timestamp {
    if es == [] then 0
    else
      var m, e := MarkerOf(es[..|es| - 1]), es[|es| - 1];
      if e.CellEvent? && e.us != [] then Max(m, e.ots) else m
  }

  function SaturatingAdd(a: Timestamp, b: nat): Timestamp {
    if a + b > U64_MAX then U64_MAX else a + b
  }

  /** The walk may stop: it is bounded by a snapshot, and the oldest event of the page
      trails the marker by more than the grace margin. */
  predicate CaughtUp(fastPath: bool, oldest: Option<Timestamp>, stopBefore: Timestamp) {
    fastPath && oldest.Some? && SaturatingAdd(oldest.value, REORDER_GRACE_MS) < stopBefore
  }

  /** An unreadable event that counts: on the fast path those before the marker do not. */
  predicate Counts(e: Event, fastPath: bool, stopBefore: Timestamp) {
    e.Undecryptable? && (!fastPath || e.time.None? || e.time.value >= stopBefore)
  }

  /** The ids of unreadable events that count, each once, after those in `lost`. */
  function Lost(lost: seq<string>, es: seq<Event>, fastPath: bool, stopBefore: Timestamp): seq<string> {
    if es == [] then lost
    else
      var ids, e := Lost(lost, es[..|es| - 1], fastPath, stopBefore), es[|es| - 1];
      if Counts(e, fastPath, stopBefore) && e.id.Some? && e.id.value !in ids then ids + [e.id.value] else ids
  }

  /** Those of the first `k` pages. */
  function WalkedLost(pages: seq<Page>, k: nat, fastPath: bool, stopBefore: Timestamp): seq<string>
    requires k <= |pages|
  {
    if k == 0 then [] else Lost(WalkedLost(pages, k - 1, fastPath, stopBefore), pages[k - 1], fastPath, stopBefore)
  }

  ghost predicate LosesId(es: seq<Event>, id: string, fastPath: bool, stopBefore: Timestamp) {
    exists e :: e in es && Counts(e, fastPath, stopBefore) && e.id == Some(id)
  }

  ghost predicate NoRepeats(ids: seq<string>) {
    forall i, j :: 0 <= i < j < |ids| ==> ids[i] != ids[j]
  }

  lemma {:induction false} LostIsExact(lost: seq<string>, es: seq<Event>, fastPath: bool, stopBefore: Timestamp,
                                       id: string)
    requires NoRepeats(lost)
    ensures NoRepeats(Lost(lost, es, fastPath, stopBefore))
    ensures id in Lost(lost, es, fastPath, stopBefore) <==> id in lost || LosesId(es, id, fastPath, stopBefore)
  {
    if es != [] {
      var init, e := es[..|es| - 1], es[|es| - 1];
      LostIsExact(lost, init, fastPath, stopBefore, id);
      assert forall x :: x in es <==> x in init || x == e;
    }
  }

  /** The list of a walk holds exactly the ids of the unreadable events on the pages read that
      count, each once. */
  lemma {:induction false} WalkedLostIsExact(pages: seq<Page>, k: nat, fastPath: bool, stopBefore: Timestamp,
                                             id: string)
    requires k <= |pages|
    ensures NoRepeats(WalkedLost(pages, k, fastPath, stopBefore))
    ensures id in WalkedLost(pages, k, fastPath, stopBefore) <==> LosesId(Flatten(pages[..k]), id, fastPath, stopBefore)
  {
    if k > 0 {
      WalkedLostIsExact(pages, k - 1, fastPath, stopBefore, id);
      LostIsExact(WalkedLost(pages, k - 1, fastPath, stopBefore), pages[k - 1], fastPath, stopBefore, id);
      FlattenSnoc(pages, k - 1);
    }
  }

  function Flatten(pages: seq<Page>): seq<Event> {
    if pages == [] then [] else Flatten(pages[..|pages| - 1]) + pages[|pages| - 1]
  }

  /** Cells on the first `k` pages. */
  function Seen(pages: seq<Page>, k: nat): set<CellId>
    requires k <= |pages|
  {
    if k == 0 then {} else Seen(pages, k - 1) + CellsOf(pages[k - 1])
  }

  /** After page `k` the coverage rule stops the walk: the page was readable and held no cell
      that the pages before it did not hold. */
  ghost predicate Covers(pages: seq<Page>, k: nat, fastPath: bool, stopBefore: Timestamp)
    requires k < |pages|
  {
    && CellsOf(pages[k]) <= Seen(pages, k)
    && (forall e :: e in pages[k] ==> !Counts(e, fastPath, stopBefore))
    && Seen(pages, k) != {}
  }

  ghost predicate StopsAt(pages: seq<Page>, k: nat, fastPath: bool, stopBefore: Timestamp, whenCovered: bool)
    requires k < |pages|
  {
    CaughtUp(fastPath, Oldest(pages[k]), stopBefore) || (whenCovered && Covers(pages, k, fastPath, stopBefore))
  }

  /** None of the first `k` pages is empty, and none of them stops the walk. */
  ghost predicate GoesOn(pages: seq<Page>, k: nat, fastPath: bool, stopBefore: Timestamp, whenCovered: bool) {
    k == 0 || (k <= |pages| && GoesOn(pages, k - 1, fastPath, stopBefore, whenCovered)
               && pages[k - 1] != [] && !StopsAt(pages, k - 1, fastPath, stopBefore, whenCovered))
  }

  /** The walk ran out of pages, or met an empty one, after reading `k`. */
  ghost predicate RunsOut(pages: seq<Page>, k: nat, fastPath: bool, stopBefore: Timestamp, whenCovered: bool) {
    k <= |pages| && GoesOn(pages, k, fastPath, stopBefore, whenCovered) && (k == |pages| || pages[k] == [])
  }

  /** The first page to stop the walk is the `k`-th. */
  ghost predicate StopsAfter(pages: seq<Page>, k: nat, fastPath: bool, stopBefore: Timestamp, whenCovered: bool) {
    && 0 < k <= |pages| && GoesOn(pages, k - 1, fastPath, stopBefore, whenCovered)
    && pages[k - 1] != [] && StopsAt(pages, k - 1, fastPath, stopBefore, whenCovered)
  }

  /** The walk reads exactly `walked` pages: to the first stop, an empty page or the end. */
  ghost predicate Walks(pages: seq<Page>, walked: nat, fastPath: bool, stopBefore: Timestamp, whenCovered: bool) {
    || RunsOut(pages, walked, fastPath, stopBefore, whenCovered)
    || StopsAfter(pages, walked, fastPath, stopBefore, whenCovered)
  }

  /** Without a marker the bounded walk is the full walk: the first connection needs no case
      of its own. */
  lemma {:induction false} NoMarkerWalksInFull(pages: seq<Page>, walked: nat, whenCovered: bool)
    requires walked <= |pages|
    ensures GoesOn(pages, walked, true, 0, whenCovered) <==> GoesOn(pages, walked, false, 0, whenCovered)
    ensures Walks(pages, walked, true, 0, whenCovered) <==> Walks(pages, walked, false, 0, whenCovered)
  {
    assert forall e :: Counts(e, true, 0) <==> Counts(e, false, 0);
    if walked > 0 { NoMarkerWalksInFull(pages, walked - 1, whenCovered); }
  }

  lemma {:induction false} GoesOnWithoutTheRule(pages: seq<Page>, k: nat, fastPath: bool, stopBefore: Timestamp)
    requires GoesOn(pages, k, fastPath, stopBefore, true)
    ensures GoesOn(pages, k, fastPath, stopBefore, false)
  {
    if k > 0 { GoesOnWithoutTheRule(pages, k - 1, fastPath, stopBefore); }
  }

  /** The walk with the coverage rule on was ended by the coverage rule alone. */
  ghost predicate EndedByCoverage(pages: seq<Page>, walked: nat, fastPath: bool, stopBefore: Timestamp) {
    StopsAfter(pages, walked, fastPath, stopBefore, true) && !CaughtUp(fastPath, Oldest(pages[walked - 1]), stopBefore)
  }

  /** Any other walk with the coverage rule on is a walk with it off. */
  lemma WalksWithoutTheRule(pages: seq<Page>, walked: nat, fastPath: bool, stopBefore: Timestamp)
    requires Walks(pages, walked, fastPath, stopBefore, true) && !EndedByCoverage(pages, walked, fastPath, stopBefore)
    ensures Walks(pages, walked, fastPath, stopBefore, false)
  {
    var seen := if StopsAfter(pages, walked, fastPath, stopBefore, true) then walked - 1 else walked;
    GoesOnWithoutTheRule(pages, seen, fastPath, stopBefore);
  }

  /** No update on the page captures a system table's routing. */
  ghost predicate Readable(page: Page) {
    forall u :: u in ReceivedAll(page) ==> WellFormed(u)
  }

  // ---- appending one event or page ----

  lemma ReceivedSnoc(es: seq<Event>, e: Event)
    ensures ReceivedAll(es + [e]) == ReceivedAll(es) + Received(e) && ReceivedAll([]) == []
  {
    assert (es + [e])[..|es|] == es;
  }

  lemma Regroup<T>(a: seq<T>, b: seq<T>, c: seq<T>)
    ensures (a + b) + c == a + (b + c) && a + [] == a
  {
  }

  lemma {:induction false} ReceivedAllAppend(a: seq<Event>, b: seq<Event>)
    ensures ReceivedAll(a + b) == ReceivedAll(a) + ReceivedAll(b)
  {
    hide ReceivedAll, Received;
    if b == [] {
      assert a + b == a;
      ReceivedSnoc(a, Other(None));
    } else {
      var init, last := b[..|b| - 1], b[|b| - 1];
      assert b == init + [last] && a + b == (a + init) + [last];
      ReceivedSnoc(a + init, last);
      ReceivedSnoc(init, last);
      ReceivedAllAppend(a, init);
      Regroup(ReceivedAll(a), ReceivedAll(init), Received(last));
    }
  }

  lemma {:induction false} MarkerAppend(a: seq<Event>, b: seq<Event>)
    ensures MarkerOf(a + b) == Max(MarkerOf(a), MarkerOf(b))
  {
    if b == [] {
      assert a + b == a;
    } else {
      var n := |b| - 1;
      assert (a + b)[..|a + b| - 1] == a + b[..n];
      MarkerAppend(a, b[..n]);
    }
  }

  lemma FlattenSnoc(pages: seq<Page>, k: nat)
    requires k < |pages|
    ensures Flatten(pages[..k + 1]) == Flatten(pages[..k]) + pages[k]
  {
    assert pages[..k + 1][..k] == pages[..k];
  }

  lemma {:induction false} InReceivedAll(es: seq<Event>, i: nat, u: Update)
    requires i < |es| && u in Received(es[i])
    ensures u in ReceivedAll(es)
  {
    if i < |es| - 1 { InReceivedAll(es[..|es| - 1], i, u); }
  }

  lemma {:induction false} ReceivedFromOne(es: seq<Event>, u: Update) returns (i: nat)
    requires u in ReceivedAll(es)
    ensures i < |es| && u in Received(es[i])
  {
    var n := |es| - 1;
    if u in Received(es[n]) { i := n; } else { i := ReceivedFromOne(es[..n], u); }
  }

  // ---- what the walk applies ----

  /** The workspace and the marker after `k` pages. */
  function WalkedState(s: State, pages: seq<Page>, k: nat): State
    requires k <= |pages|
  {
    if k == 0 then s else ApplyAll(WalkedState(s, pages, k - 1), ReceivedAll(pages[k - 1]))
  }

  function WalkedMarker(marker: Timestamp, pages: seq<Page>, k: nat): Timestamp
    requires k <= |pages|
  {
    if k == 0 then marker else Max(WalkedMarker(marker, pages, k - 1), MarkerOf(pages[k - 1]))
  }

  lemma NothingRead(s: State)
    ensures Flatten([]) == [] && ReceivedAll([]) == [] && ApplyAll(s, []) == s && MarkerOf([]) == 0
  {
  }

  /** What the walk has applied is every update on the pages it read. */
  lemma {:induction false} WalkedPages(s: State, marker: Timestamp, pages: seq<Page>, k: nat)
    requires k <= |pages|
    ensures WalkedState(s, pages, k) == ApplyAll(s, ReceivedAll(Flatten(pages[..k])))
    ensures WalkedMarker(marker, pages, k) == Max(marker, MarkerOf(Flatten(pages[..k])))
  {
    hide ReceivedAll, ApplyAll, MarkerOf;
    NothingRead(s);
    if k > 0 {
      WalkedPages(s, marker, pages, k - 1);
      var before, page := Flatten(pages[..k - 1]), pages[k - 1];
      FlattenSnoc(pages, k - 1);
      ReceivedAllAppend(before, page);
      ApplyAllAppend(s, ReceivedAll(before), ReceivedAll(page));
      MarkerAppend(before, page);
    }
  }

  lemma {:induction false} FlattenAppend(a: seq<Page>, b: seq<Page>)
    ensures Flatten(a + b) == Flatten(a) + Flatten(b)
  {
    if b == [] {
      assert a + b == a;
    } else {
      var n := |b| - 1;
      assert (a + b)[..|a + b| - 1] == a + b[..n] && (a + b)[|a + b| - 1] == b[n];
      FlattenAppend(a, b[..n]);
      assert Flatten(a) + (Flatten(b[..n]) + b[n]) == Flatten(a) + Flatten(b[..n]) + b[n];
    }
  }

  lemma FlattenSplit(pages: seq<Page>, k: nat)
    requires k < |pages|
    ensures Flatten(pages) == Flatten(pages[..k]) + pages[k] + Flatten(pages[k + 1..])
  {
    assert pages == pages[..k + 1] + pages[k + 1..];
    FlattenAppend(pages[..k + 1], pages[k + 1..]);
    FlattenSnoc(pages, k);
  }
}
