/** The backward walk of a cold start, into a workspace. */
module Gather {
  import opened Cells
  import opened States
  import opened Pages
  import opened Workspaces

  method GatherEvent(ws: Workspace, e: Event, marker: Timestamp) returns (m: Timestamp)
    requires ws.Valid() && forall u :: u in Received(e) ==> WellFormed(u)
    modifies ws
    ensures ws.Valid() && ws.Model() == ApplyAll(old(ws.Model()), Received(e))
    ensures m == Max(marker, MarkerOf([e]))
  {
    m := marker;
    if e.CellEvent? {
      ws.ApplyEach(Receive(e.us, e.ots));
      if e.us != [] && e.ots > m {
        m := e.ots;
      }
    }
    assert [e][..0] == [] && MarkerOf([]) == 0;
  }

  /** What is counted while a page is read. */
  datatype Tally = Tally(oldest: Option<Timestamp>, cells: set<CellId>, unreadable: nat, lost: seq<string>,
                         marker: Timestamp)

  function Counting(t: Tally, e: Event, fastPath: bool, stopBefore: Timestamp): Tally {
    Tally(Min(t.oldest, TimeOf(e)), t.cells + (set u | u in Received(e) :: u.id),
      t.unreadable + (if Counts(e, fastPath, stopBefore) then 1 else 0), Lost(t.lost, [e], fastPath, stopBefore),
      Max(t.marker, MarkerOf([e])))
  }

  ghost predicate Tallies(t: Tally, es: seq<Event>, fastPath: bool, stopBefore: Timestamp, marker: Timestamp,
                          lost: seq<string>) {
    && t.oldest == Oldest(es) && t.cells == CellsOf(es) && t.marker == Max(marker, MarkerOf(es))
    && t.lost == Lost(lost, es, fastPath, stopBefore)
    && (t.unreadable == 0 <==> forall e :: e in es ==> !Counts(e, fastPath, stopBefore))
  }

  lemma TallyOneMore(t: Tally, es: seq<Event>, e: Event, fastPath: bool, stopBefore: Timestamp, marker: Timestamp,
                     lost: seq<string>)
    requires Tallies(t, es, fastPath, stopBefore, marker, lost)
    ensures Tallies(Counting(t, e, fastPath, stopBefore), es + [e], fastPath, stopBefore, marker, lost)
  {
    assert (es + [e])[..|es|] == es && [e][..0] == [];
    assert Lost(t.lost, [], fastPath, stopBefore) == t.lost;
    MarkerAppend(es, [e]);
  }

  lemma ReceivedOneMore(s: State, mid: State, es: seq<Event>, e: Event, more: seq<Event>)
    requires mid == ApplyAll(s, ReceivedAll(es)) && more == es + [e]
    ensures ApplyAll(s, ReceivedAll(more)) == ApplyAll(mid, Received(e))
  {
    ReceivedSnoc(es, e);
    ApplyAllAppend(s, ReceivedAll(es), Received(e));
  }

  lemma EventWellFormed(page: Page, i: nat)
    requires i < |page| && Readable(page)
    ensures forall u :: u in Received(page[i]) ==> WellFormed(u)
  {
    forall u | u in Received(page[i]) ensures WellFormed(u) { InReceivedAll(page, i, u); }
  }

  method GatherPage(ws: Workspace, page: Page, fastPath: bool, stopBefore: Timestamp, marker: Timestamp,
                    lost: seq<string>)
    returns (t: Tally)
    requires ws.Valid() && Readable(page)
    modifies ws
    ensures ws.Valid() && ws.Model() == ApplyAll(old(ws.Model()), ReceivedAll(page))
    ensures Tallies(t, page, fastPath, stopBefore, marker, lost)
  {
    t := Tally(None, {}, 0, lost, marker);
    for i := 0 to |page|
      invariant ws.Valid() && ws.Model() == ApplyAll(old(ws.Model()), ReceivedAll(page[..i]))
      invariant Tallies(t, page[..i], fastPath, stopBefore, marker, lost)
    {
      EventWellFormed(page, i);
      assert page[..i + 1] == page[..i] + [page[i]];
      ReceivedOneMore(old(ws.Model()), ws.Model(), page[..i], page[i], page[..i + 1]);
      TallyOneMore(t, page[..i], page[i], fastPath, stopBefore, marker, lost);
      var m := GatherEvent(ws, page[i], t.marker);
      t := Counting(t, page[i], fastPath, stopBefore).(marker := m);
    }
    assert page[..|page|] == page;
  }

  /** Where the walk stands after `k` pages: the workspace, the marker, the cells seen and the
      unreadable events. */
  ghost predicate Progress(s: State, n: State, pages: seq<Page>, k: nat, fastPath: bool, marker: Timestamp,
                           seen: set<CellId>, lost: seq<string>, m: Timestamp) {
    && k <= |pages| && n == WalkedState(s, pages, k) && m == WalkedMarker(marker, pages, k) && seen == Seen(pages, k)
    && lost == WalkedLost(pages, k, fastPath, marker)
  }

  lemma CoverageTest(pages: seq<Page>, k: nat, seen: set<CellId>, t: Tally, fastPath: bool, stopBefore: Timestamp,
                     m: Timestamp, lost: seq<string>)
    requires k < |pages| && seen == Seen(pages, k) && Tallies(t, pages[k], fastPath, stopBefore, m, lost)
    ensures t.cells - seen == {} && t.unreadable == 0 && seen + t.cells != {}
      <==> Covers(pages, k, fastPath, stopBefore)
  {
    if t.cells - seen == {} {
      forall id | id in t.cells ensures id in seen { assert id !in t.cells - seen; }
    }
  }

  /** Read page `k`: `s` is the workspace the walk began with. */
  method GatherNext(ghost s: State, ws: Workspace, pages: seq<Page>, k: nat, fastPath: bool, marker: Timestamp,
                    whenCovered: bool, seen: set<CellId>, lost: seq<string>, m: Timestamp)
    returns (seen2: set<CellId>, lost2: seq<string>, m2: Timestamp, stop: bool)
    requires k < |pages| && ws.Valid() && Readable(pages[k])
    requires Progress(s, ws.Model(), pages, k, fastPath, marker, seen, lost, m)
    modifies ws
    ensures ws.Valid() && Progress(s, ws.Model(), pages, k + 1, fastPath, marker, seen2, lost2, m2)
    ensures stop <==> StopsAt(pages, k, fastPath, marker, whenCovered)
  {
    var t := GatherPage(ws, pages[k], fastPath, marker, m, lost);
    CoverageTest(pages, k, seen, t, fastPath, marker, m, lost);
    var covered := whenCovered && t.cells - seen == {} && t.unreadable == 0 && seen + t.cells != {};
    seen2, lost2, m2, stop := seen + t.cells, t.lost, t.marker, CaughtUp(fastPath, t.oldest, marker) || covered;
  }

  lemma NothingRead(s: State, pages: seq<Page>, fastPath: bool, marker: Timestamp)
    ensures Progress(s, s, pages, 0, fastPath, marker, {}, [], marker)
  {
  }

  /** Walk the room backwards into a workspace until a stop rule holds; of the pages only the
      first `fetchable` can be fetched, and the walk is given up when it needs another. */
  method GatherHistory(ws: Workspace, pages: seq<Page>, fetchable: nat, fastPath: bool, marker: Timestamp,
                       whenCovered: bool)
    returns (m: Timestamp, lost: seq<string>, walked: nat, failed: bool, ghost seen: set<CellId>)
    requires ws.Valid() && forall page :: page in pages ==> Readable(page)
    modifies ws
    ensures walked <= fetchable && (!failed ==> Walks(pages, walked, fastPath, marker, whenCovered))
    ensures failed ==> walked == fetchable < |pages| && GoesOn(pages, walked, fastPath, marker, whenCovered)
    ensures ws.Valid() && Progress(old(ws.Model()), ws.Model(), pages, walked, fastPath, marker, seen, lost, m)
  {
    hide StopsAt, Progress, Readable;
    ghost var s := ws.Model();
    NothingRead(s, pages, fastPath, marker);
    var stop := false;
    var cells: set<CellId> := {};
    m, lost, walked := marker, [], 0;
    while walked < |pages| && !stop && walked < fetchable && pages[walked] != []
      invariant walked <= |pages| && walked <= fetchable
      invariant ws.Valid() && Progress(s, ws.Model(), pages, walked, fastPath, marker, cells, lost, m)
      invariant stop ==> StopsAfter(pages, walked, fastPath, marker, whenCovered)
      invariant !stop ==> GoesOn(pages, walked, fastPath, marker, whenCovered)
      decreases |pages| - walked
    {
      cells, lost, m, stop := GatherNext(s, ws, pages, walked, fastPath, marker, whenCovered, cells, lost, m);
      OnePageOn(pages, walked, fastPath, marker, whenCovered, stop);
      walked := walked + 1;
    }
    seen, failed := cells, !stop && walked < |pages| && walked >= fetchable;
    assert !stop && !failed ==> RunsOut(pages, walked, fastPath, marker, whenCovered);
  }

  lemma OnePageOn(pages: seq<Page>, k: nat, fastPath: bool, stopBefore: Timestamp, whenCovered: bool, stop: bool)
    requires k < |pages| && pages[k] != [] && GoesOn(pages, k, fastPath, stopBefore, whenCovered)
    requires stop <==> StopsAt(pages, k, fastPath, stopBefore, whenCovered)
    ensures stop ==> StopsAfter(pages, k + 1, fastPath, stopBefore, whenCovered)
    ensures !stop ==> GoesOn(pages, k + 1, fastPath, stopBefore, whenCovered)
  {
  }

  // ---- what was gathered, in terms of the pages ----

  /** Some event on the page carries the cell. */
  ghost predicate HasCell(page: Page, id: CellId) {
    exists ots, us: seq<Update> :: CellEvent(ots, us) in page && exists u :: u in us && u.id == id
  }

  /** The updates applied are those of the cell events read, each under its event's time. */
  lemma ReceivedAre(es: seq<Event>, x: Update)
    ensures x in ReceivedAll(es) <==>
      exists ots, us: seq<Update>, u :: CellEvent(ots, us) in es && u in us
        && x == Update(u.id, Cell(u.cell.value, u.cell.ts, Some(ots)))
  {
    if x in ReceivedAll(es) {
      var i := ReceivedFromOne(es, x);
      var e := es[i];
      assert e == CellEvent(e.ots, e.us) && e in es;
      var j :| 0 <= j < |e.us| && x == Stamped(e.us[j], e.ots);
      assert e.us[j] in e.us;
    }
    if ots, us: seq<Update>, u :| CellEvent(ots, us) in es && u in us && x == Stamped(u, ots) {
      var i :| 0 <= i < |es| && es[i] == CellEvent(ots, us);
      var j :| 0 <= j < |us| && us[j] == u;
      assert Receive(us, ots)[j] == x;
      InReceivedAll(es, i, x);
    }
  }

  lemma CellsAre(page: Page, id: CellId)
    ensures id in CellsOf(page) <==> HasCell(page, id)
  {
    if id in CellsOf(page) {
      var x :| x in ReceivedAll(page) && x.id == id;
      ReceivedAre(page, x);
    }
    if HasCell(page, id) {
      var ots, us: seq<Update> :| CellEvent(ots, us) in page && exists u :: u in us && u.id == id;
      var u :| u in us && u.id == id;
      var x := Stamped(u, ots);
      ReceivedAre(page, x);
    }
  }

  lemma {:induction false} SeenAre(pages: seq<Page>, k: nat, id: CellId)
    requires k <= |pages|
    ensures id in Seen(pages, k) <==> exists p :: 0 <= p < k && HasCell(pages[p], id)
  {
    hide HasCell, CellsOf;
    if k > 0 {
      SeenAre(pages, k - 1, id);
      CellsAre(pages[k - 1], id);
    }
  }

  lemma {:induction false} OldestIsLeast(es: seq<Event>)
    ensures Oldest(es).None? <==> forall e :: e in es ==> TimeOf(e).None?
    ensures Oldest(es).Some? ==> exists e :: e in es && TimeOf(e) == Oldest(es)
    ensures Oldest(es).Some? ==> forall e :: e in es && TimeOf(e).Some? ==> Oldest(es).value <= TimeOf(e).value
  {
    if es != [] {
      var init, e := es[..|es| - 1], es[|es| - 1];
      OldestIsLeast(init);
      assert forall x :: x in es <==> x in init || x == e;
    }
  }

  /** The grace rule: with a marker, some time on the page trails it by more than thirty
      seconds. */
  lemma GraceRuleIff(page: Page, fastPath: bool, marker: Timestamp)
    ensures CaughtUp(fastPath, Oldest(page), marker) <==>
      fastPath && exists e :: e in page && TimeOf(e).Some? && TimeOf(e).value + 30_000 < marker
  {
    OldestIsLeast(page);
  }

  /** The coverage rule: all the page's cells were on newer pages, some cell was, and no event
      of the page is unreadable, those from before the marker excepted. */
  lemma CoverageRuleIff(pages: seq<Page>, k: nat, fastPath: bool, marker: Timestamp)
    requires k < |pages|
    ensures Covers(pages, k, fastPath, marker) <==>
      && (forall id :: HasCell(pages[k], id) ==> exists p :: 0 <= p < k && HasCell(pages[p], id))
      && (exists id, p :: 0 <= p < k && HasCell(pages[p], id))
      && (forall time: Option<Timestamp>, id :: Undecryptable(time, id) in pages[k] ==>
            fastPath && time.Some? && time.value < marker)
  {
    hide HasCell, CellsOf;
    forall id ensures id in CellsOf(pages[k]) <==> HasCell(pages[k], id) { CellsAre(pages[k], id); }
    forall id ensures id in Seen(pages, k) <==> exists p :: 0 <= p < k && HasCell(pages[p], id) {
      SeenAre(pages, k, id);
    }
    forall e | e in pages[k] && e.Undecryptable? ensures Undecryptable(e.time, e.id) in pages[k] {}
    if id, p :| 0 <= p < k && HasCell(pages[p], id) { assert id in Seen(pages, k); }
    if Seen(pages, k) != {} {
      var id :| id in Seen(pages, k);
      assert exists p :: 0 <= p < k && HasCell(pages[p], id);
    }
  }

  lemma {:induction false} GoesOnIff(pages: seq<Page>, k: nat, fastPath: bool, marker: Timestamp, whenCovered: bool)
    requires k <= |pages|
    ensures GoesOn(pages, k, fastPath, marker, whenCovered) <==>
      forall p :: 0 <= p < k ==> pages[p] != [] && !StopsAt(pages, p, fastPath, marker, whenCovered)
  {
    if k > 0 { GoesOnIff(pages, k - 1, fastPath, marker, whenCovered); }
  }

  /** The walk reads up to the first page at which one of the two rules holds, or else up to an
      empty page or the end. */
  lemma WalksIff(pages: seq<Page>, walked: nat, fastPath: bool, marker: Timestamp, whenCovered: bool)
    ensures Walks(pages, walked, fastPath, marker, whenCovered) <==>
      && walked <= |pages|
      && (forall p :: 0 <= p < walked ==> pages[p] != [])
      && (forall p :: 0 <= p < walked - 1 ==> !StopsAt(pages, p, fastPath, marker, whenCovered))
      && (walked == |pages| || pages[walked] == []
          || (walked > 0 && StopsAt(pages, walked - 1, fastPath, marker, whenCovered)))
  {
    hide StopsAt;
    if walked <= |pages| {
      GoesOnIff(pages, walked, fastPath, marker, whenCovered);
      if walked > 0 { GoesOnIff(pages, walked - 1, fastPath, marker, whenCovered); }
    }
  }

  /** The ids listed are those of the unreadable events on the pages read, without those that
      are known to come before the marker on the fast path; each is listed once. */
  lemma LostAre(pages: seq<Page>, k: nat, fastPath: bool, marker: Timestamp, id: string)
    requires k <= |pages|
    ensures id in WalkedLost(pages, k, fastPath, marker) <==>
      exists p, time: Option<Timestamp> :: 0 <= p < k && Undecryptable(time, Some(id)) in pages[p]
        && (!fastPath || time.None? || time.value >= marker)
    ensures NoRepeats(WalkedLost(pages, k, fastPath, marker))
  {
    WalkedLostIsExact(pages, k, fastPath, marker, id);
    var es := Flatten(pages[..k]);
    if e :| e in es && Counts(e, fastPath, marker) && e.id == Some(id) {
      var p := OnSomePage(pages, k, e);
      assert e == Undecryptable(e.time, Some(id)) && e in pages[p];
    }
    if p, time: Option<Timestamp> :|
      0 <= p < k && Undecryptable(time, Some(id)) in pages[p] && (!fastPath || time.None? || time.value >= marker)
    {
      PageIsRead(pages, k, p, Undecryptable(time, Some(id)));
      assert Counts(Undecryptable(time, Some(id)), fastPath, marker);
    }
  }

  lemma {:induction false} OnSomePage(pages: seq<Page>, k: nat, e: Event) returns (p: nat)
    requires k <= |pages| && e in Flatten(pages[..k])
    ensures p < k && e in pages[p]
  {
    assert k > 0;
    FlattenSnoc(pages, k - 1);
    if e in pages[k - 1] { p := k - 1; } else { p := OnSomePage(pages, k - 1, e); }
  }

  lemma {:induction false} PageIsRead(pages: seq<Page>, k: nat, p: nat, e: Event)
    requires p < k <= |pages| && e in pages[p]
    ensures e in Flatten(pages[..k])
  {
    FlattenSnoc(pages, k - 1);
    if p < k - 1 { PageIsRead(pages, k - 1, p, e); }
  }

  /** The marker afterwards: the newest time of an event read that carries cells, or the old one
      if that is newer. */
  lemma {:induction false} MarkerIs(pages: seq<Page>, k: nat, marker: Timestamp)
    requires k <= |pages|
    ensures var m := WalkedMarker(marker, pages, k);
      && marker <= m
      && (forall p, ots: Timestamp, us: seq<Update> ::
            0 <= p < k && CellEvent(ots, us) in pages[p] && us != [] ==> ots <= m)
      && (m == marker || exists p, us: seq<Update> :: 0 <= p < k && CellEvent(m, us) in pages[p] && us != [])
  {
    if k > 0 {
      MarkerIs(pages, k - 1, marker);
      NewestCells(pages[k - 1]);
    }
  }

  lemma {:induction false} NewestCells(es: seq<Event>)
    ensures forall ots: Timestamp, us: seq<Update> :: CellEvent(ots, us) in es && us != [] ==> ots <= MarkerOf(es)
    ensures MarkerOf(es) == 0 || exists us: seq<Update> :: CellEvent(MarkerOf(es), us) in es && us != []
  {
    if es != [] {
      var init, e := es[..|es| - 1], es[|es| - 1];
      NewestCells(init);
      assert forall x :: x in es <==> x in init || x == e;
      if e.CellEvent? { assert e == CellEvent(e.ots, e.us); }
    }
  }

  /** An unreadable event that may hide something keeps the coverage rule from ending the walk
      at its page: only the grace rule, or running out of pages, ends it there. */
  lemma UnreadableIsNoEvidence(pages: seq<Page>, walked: nat, fastPath: bool, marker: Timestamp, whenCovered: bool,
                               time: Option<Timestamp>, id: Option<string>)
    requires Walks(pages, walked, fastPath, marker, whenCovered) && 0 < walked <= |pages|
    requires Undecryptable(time, id) in pages[walked - 1] && (!fastPath || time.None? || time.value >= marker)
    ensures || walked == |pages| || pages[walked] == []
      || (fastPath && exists e :: e in pages[walked - 1] && TimeOf(e).Some? && TimeOf(e).value + 30_000 < marker)
  {
    hide Oldest, Covers, CaughtUp, HasCell, GoesOn;
    GraceRuleIff(pages[walked - 1], fastPath, marker);
    CoverageRuleIff(pages, walked - 1, fastPath, marker);
  }
}
