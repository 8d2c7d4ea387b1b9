/** Both stop rules at once, over any number of sessions. */
module Sessions {
  import opened Cells
  import opened Reads
  import opened States
  import opened Compaction
  import opened Timeline
  import opened Coverage
  import opened Coalescing
  import opened Agreement
  import opened Pages
  import opened Restart

  // A reader of a room with one writer connects again and again.  Each time it loads its
  // snapshot and walks the room backwards until the grace rule, the coverage rule or the
  // start of the room ends the walk.  A coverage stop leaves gaps: the reader need not hold
  // all of the room.  It still holds everything live, and so does every later session.

  /** A run of the writer; where its queue was flushed and the trail of coalesced events that
      makes; the server's stamps of these, and the room as stored: the writer's events in
      order, with events of other kinds among them. */
  datatype Room = Room(run: Run, size: Size, cuts: seq<nat>, trail: Run, ots: seq<Timestamp>, stream: seq<Event>)

  function CellEvents(es: seq<Event>): seq<Event> {
    if es == [] then []
    else
      var last := es[|es| - 1];
      CellEvents(es[..|es| - 1]) + if last.CellEvent? then [last] else []
  }

  ghost predicate IsRoom(room: Room) {
    && IsRun(room.run, room.size) && room.run.states[0] == EMPTY
    && Coalesces(room.trail, room.run, room.cuts)
    && |room.ots| == |room.trail.events|
    && CellEvents(room.stream) == seq(|room.ots|,
      k requires 0 <= k < |room.ots| => CellEvent(room.ots[k], room.trail.events[k]))
    && Skewed(room.stream)
    && SafeInputs(room.stream, [])
  }

  lemma RoomIsTrail(room: Room)
    requires IsRoom(room)
    ensures IsTrail(room.trail) && room.trail.states[0] == EMPTY
  {
    EveryStepReplaces(room.run, room.size);
    CoalescedIsTrail(room.trail, room.run, room.cuts);
  }

  /** How many of the writer's events the first `p` events of the room are. */
  function At(room: Room, p: nat): nat
    requires p <= |room.stream|
  {
    |CellEvents(room.stream[..p])|
  }

  // ---- places in the room and places in the run ----

  lemma {:induction false} CellEventsAppend(a: seq<Event>, b: seq<Event>)
    ensures CellEvents(a + b) == CellEvents(a) + CellEvents(b)
  {
    if b == [] {
      assert a + b == a;
    } else {
      var n := |b| - 1;
      assert (a + b)[..|a + b| - 1] == a + b[..n] && (a + b)[|a + b| - 1] == b[n];
      CellEventsAppend(a, b[..n]);
    }
  }

  lemma AtGrows(room: Room, a: nat, b: nat)
    requires IsRoom(room) && a <= b <= |room.stream|
    ensures At(room, a) <= At(room, b) <= |room.trail.events|
  {
    assert room.stream[..b] == room.stream[..a] + room.stream[a..b];
    CellEventsAppend(room.stream[..a], room.stream[a..b]);
    assert room.stream == room.stream[..b] + room.stream[b..];
    CellEventsAppend(room.stream[..b], room.stream[b..]);
  }

  /** `e` is the writer's event `k`. */
  ghost predicate IsEvent(room: Room, k: nat, e: Event)
    requires |room.ots| == |room.trail.events|
  {
    k < |room.trail.events| && e == CellEvent(room.ots[k], room.trail.events[k])
  }

  lemma PlaceOf(room: Room, j: nat)
    requires IsRoom(room) && j < |room.stream|
    ensures At(room, j + 1) == At(room, j) + if room.stream[j].CellEvent? then 1 else 0
    ensures room.stream[j].CellEvent? ==> IsEvent(room, At(room, j), room.stream[j])
  {
    assert room.stream[..j + 1][..j] == room.stream[..j];
    assert room.stream == room.stream[..j + 1] + room.stream[j + 1..];
    CellEventsAppend(room.stream[..j + 1], room.stream[j + 1..]);
    assert room.stream[j].CellEvent? ==> CellEvents(room.stream)[At(room, j)] == room.stream[j];
  }

  lemma {:induction false} EventOf(room: Room, a: nat, b: nat, k: nat) returns (j: nat)
    requires IsRoom(room) && a <= b <= |room.stream| && At(room, a) <= k < At(room, b)
    ensures a <= j < b && IsEvent(room, k, room.stream[j])
    decreases b
  {
    PlaceOf(room, b - 1);
    AtGrows(room, a, b - 1);
    if At(room, b - 1) <= k { j := b - 1; } else { j := EventOf(room, a, b - 1, k); }
  }

  /** `x` is an update of one of the writer's events `lo` to `hi`, as received. */
  ghost predicate Fetched(room: Room, lo: nat, hi: nat, x: Update)
    requires lo <= hi <= |room.trail.events| == |room.ots|
  {
    exists k, u :: lo <= k < hi && u in room.trail.events[k] && x == Stamped(u, room.ots[k])
  }

  lemma InReceived(room: Room, k: nat, e: Event, x: Update)
    requires |room.ots| == |room.trail.events| && IsEvent(room, k, e)
    ensures x in Received(e) <==> exists u :: u in room.trail.events[k] && x == Stamped(u, room.ots[k])
  {
    var us := room.trail.events[k];
    if x in Received(e) {
      var p :| 0 <= p < |Received(e)| && Received(e)[p] == x;
      assert us[p] in us;
    }
    if u :| u in us && x == Stamped(u, room.ots[k]) {
      var p :| 0 <= p < |us| && us[p] == u;
      assert Received(e)[p] == x;
    }
  }

  lemma ReadIsFetched(room: Room, a: nat, b: nat, es: seq<Event>, x: Update)
    requires IsRoom(room) && a <= b <= |room.stream| && At(room, a) <= At(room, b) <= |room.trail.events|
    requires forall e :: e in es ==> e in room.stream[a..b]
    requires x in ReceivedAll(es)
    ensures Fetched(room, At(room, a), At(room, b), x)
  {
    hide CellEvents, ReceivedAll, IsRun, Skewed, SafeInputs;
    var i := ReceivedFromOne(es, x);
    assert es[i] in room.stream[a..b];
    var j :| a <= j < b && room.stream[j] == es[i];
    PlaceOf(room, j);
    AtGrows(room, a, j);
    AtGrows(room, j + 1, b);
    InReceived(room, At(room, j), es[i], x);
  }

  lemma FetchedIsRead(room: Room, a: nat, b: nat, es: seq<Event>, x: Update)
    requires IsRoom(room) && a <= b <= |room.stream| && At(room, a) <= At(room, b) <= |room.trail.events|
    requires forall e :: e in room.stream[a..b] ==> e in es
    requires Fetched(room, At(room, a), At(room, b), x)
    ensures x in ReceivedAll(es)
  {
    hide CellEvents;
    var k, u :| At(room, a) <= k < At(room, b) && u in room.trail.events[k] && x == Stamped(u, room.ots[k]);
    var j := EventOf(room, a, b, k);
    assert room.stream[a..b][j - a] == room.stream[j] && room.stream[j] in room.stream[a..b];
    var i :| 0 <= i < |es| && es[i] == room.stream[j];
    InReceived(room, k, es[i], x);
    InReceivedAll(es, i, x);
  }

  /** Reading the events `a` to `b` of the room, in any order, fetches just those updates. */
  lemma ReadingFetches(room: Room, a: nat, b: nat, es: seq<Event>, x: Update)
    requires IsRoom(room) && a <= b <= |room.stream|
    requires forall e :: e in es <==> e in room.stream[a..b]
    ensures At(room, a) <= At(room, b) <= |room.trail.events|
    ensures x in ReceivedAll(es) <==> Fetched(room, At(room, a), At(room, b), x)
  {
    AtGrows(room, a, b);
    if x in ReceivedAll(es) { ReadIsFetched(room, a, b, es, x); }
    if Fetched(room, At(room, a), At(room, b), x) { FetchedIsRead(room, a, b, es, x); }
  }

  // ---- what a reader must hold ----

  /** `u`, of event `k`, is the last emission of its cell before event `n`. */
  ghost predicate Current(room: Room, n: nat, k: nat, u: Update)
    requires n <= |room.trail.events|
  {
    k < n && u in room.trail.events[k] && !EmittedWithin(room.trail, k + 1, n, u.id)
  }

  /** The updates hold the current version of every cell live after `n` events. */
  ghost predicate HoldsLive(room: Room, n: nat, us: seq<Update>)
    requires n <= |room.trail.events| == |room.ots| && |room.trail.states| == |room.trail.events| + 1
  {
    forall k: nat, u :: Current(room, n, k, u) && Bumpable(room.trail.states[n].cells, u.id) ==>
      Stamped(u, room.ots[k]) in us
  }

  /** Reading everything newer keeps the live cells current. */
  lemma ReadingOnHoldsLive(room: Room, n: nat, n2: nat, us: seq<Update>, vs: seq<Update>)
    requires IsRoom(room) && n <= n2 <= |room.trail.events| && HoldsLive(room, n, us)
    requires forall x :: Fetched(room, n, n2, x) ==> x in vs
    ensures HoldsLive(room, n2, us + vs)
  {
    RoomIsTrail(room);
    forall k: nat, u | Current(room, n2, k, u) && Bumpable(room.trail.states[n2].cells, u.id)
      ensures Stamped(u, room.ots[k]) in us + vs
    {
      if k >= n {
        assert Fetched(room, n, n2, Stamped(u, room.ots[k]));
      } else {
        assert !EmittedWithin(room.trail, n, n2, u.id) && !EmittedWithin(room.trail, k + 1, n, u.id);
        UntouchedOver(room.trail, n, n2, u.id);
        UntouchedOver(room.trail, k + 1, n2, u.id);
        assert Replaces(room.trail.states[k], room.trail.events[k], room.trail.states[k + 1]);
        HeldForever(room.trail, k + 1, n2, u.id, u.cell);
        assert Current(room, n, k, u);
      }
    }
  }

  /** A walk that ends with a page as the coverage rule asks holds everything live. */
  lemma CoveringHoldsLive(room: Room, lo: nat, hi: nat, n: nat, c: CellId, vs: seq<Update>)
    requires IsRoom(room) && lo < hi <= n <= |room.trail.events|
    requires PageAddsNothing(room.trail, lo, hi, n) && EmittedWithin(room.trail, lo, hi, c)
    requires room.cuts[n] <= |room.run.events| && OnlyBumpedSince(room.run, room.size, room.cuts[hi], room.cuts[n], c)
    requires forall x :: Fetched(room, lo, n, x) ==> x in vs
    ensures HoldsLive(room, n, vs)
  {
    forall k: nat, u | Current(room, n, k, u) && Bumpable(room.trail.states[n].cells, u.id)
      ensures Stamped(u, room.ots[k]) in vs
    {
      CoalescedPageCovers(room.trail, room.run, room.cuts, room.size, lo, hi, n, c, u.id);
      var l :| lo <= l < n && Emits(room.trail.events[l], u.id);
      assert k >= l;
      assert Fetched(room, lo, n, Stamped(u, room.ots[k]));
    }
  }

  /** Merging updates fetched from the room gives each cell among them whose current version
      is there that version, and nothing newer to any cell. */
  lemma CurrentVersionWins(room: Room, n: nat, us: seq<Update>, k: nat, u: Update)
    requires IsRoom(room) && n <= |room.trail.events|
    requires forall x :: x in us ==> Fetched(room, 0, n, x)
    requires Current(room, n, k, u) && Stamped(u, room.ots[k]) in us
    ensures u.id in PutAll(map[], us) && PutAll(map[], us)[u.id] == Stamped(u, room.ots[k]).cell
  {
    RoomIsTrail(room);
    var id, top := u.id, Stamped(u, room.ots[k]).cell;
    PutAllKeepsWinner(map[], us, id);
    assert Stamped(u, room.ots[k]) == Update(id, top);
    assert Offered(map[], us, id, top);
    var won := PutAll(map[], us)[id];
    assert Fetched(room, 0, n, Update(id, won));
    var j, v :| 0 <= j < n && v in room.trail.events[j] && Update(id, won) == Stamped(v, room.ots[j]);
    OnlyTheLastWins(room.trail, n, j, v, k, u);
    WinsOverIsRankOrder(won, top);
  }

  lemma CurrentExists(room: Room, n: nat, id: CellId) returns (k: nat, u: Update)
    requires IsRoom(room) && n <= |room.trail.events| && EmittedWithin(room.trail, 0, n, id)
    ensures Current(room, n, k, u) && u.id == id
    ensures id in room.trail.states[n].cells && room.trail.states[n].cells[id] == u.cell
  {
    RoomIsTrail(room);
    k := LastEmissionExists(room.trail, 0, n, id);
    u :| u in room.trail.events[k] && u.id == id;
    HeldForever(room.trail, k + 1, n, id, u.cell);
  }

  lemma LiveMeansEmitted(room: Room, n: nat, id: CellId)
    requires IsRoom(room) && n <= |room.trail.events| && id in room.trail.states[n].cells
    ensures EmittedWithin(room.trail, 0, n, id)
  {
    RoomIsTrail(room);
    UntouchedOver(room.trail, 0, n, id);
  }

  /** Updates of the room that hold everything live merge to cells that agree with the
      writer's, and with replaying anything else of the room that holds everything live. */
  lemma HoldingLiveAgrees(room: Room, n: nat, us: seq<Update>)
    requires IsRoom(room) && n <= |room.trail.events|
    requires HoldsLive(room, n, us) && forall x :: x in us ==> Fetched(room, 0, n, x)
    ensures Agrees(room.trail.states[n].cells, PutAll(map[], us))
  {
    RoomIsTrail(room);
    var live, m := room.trail.states[n].cells, PutAll(map[], us);
    forall id | Bumpable(live, id) ensures id in m && m[id].value == live[id].value && m[id].ts == live[id].ts {
      LiveMeansEmitted(room, n, id);
      var k, u := CurrentExists(room, n, id);
      CurrentVersionWins(room, n, us, k, u);
    }
    forall id | id in m ensures id in live && m[id].ts <= live[id].ts {
      PutAllKeepsWinner(map[], us, id);
      assert Fetched(room, 0, n, Update(id, m[id]));
      var j, v :| 0 <= j < n && v in room.trail.events[j] && Update(id, m[id]) == Stamped(v, room.ots[j]);
      assert Emits(room.trail.events[j], id);
      var k, u := CurrentExists(room, n, id);
      OnlyTheLastWins(room.trail, n, j, v, k, u);
    }
  }

  lemma SameLiveCells(room: Room, n: nat, us: seq<Update>, vs: seq<Update>, id: CellId)
    requires IsRoom(room) && n <= |room.trail.events| && Bumpable(room.trail.states[n].cells, id)
    requires HoldsLive(room, n, us) && forall x :: x in us ==> Fetched(room, 0, n, x)
    requires HoldsLive(room, n, vs) && forall x :: x in vs ==> Fetched(room, 0, n, x)
    ensures id in PutAll(map[], us) && id in PutAll(map[], vs) && PutAll(map[], us)[id] == PutAll(map[], vs)[id]
  {
    LiveMeansEmitted(room, n, id);
    var k, u := CurrentExists(room, n, id);
    CurrentVersionWins(room, n, us, k, u);
    CurrentVersionWins(room, n, vs, k, u);
  }

  // ---- sessions ----

  datatype Session =
    | Live(upto: nat)
    | Connect(cells: seq<Update>, length: nat, pages: seq<Page>, walked: nat)

  /** The page holds a cell that the writer only bumps from event `hi` to event `n`. */
  ghost predicate HoldsBumped(room: Room, page: Page, hi: nat, n: nat, c: CellId)
    requires IsRoom(room) && hi <= n <= |room.trail.events|
  {
    && c in CellsOf(page) && room.cuts[n] <= |room.run.events|
    && OnlyBumpedSince(room.run, room.size, room.cuts[hi], room.cuts[n], c)
  }

  ghost predicate ProvesCoverage(room: Room, page: Page, hi: nat, n: nat)
    requires IsRoom(room) && hi <= n <= |room.trail.events|
  {
    exists c :: HoldsBumped(room, page, hi, n, c)
  }

  /** The last page of the walk holds a cell that the writer only bumped in the newer pages. */
  ghost predicate Evidence(room: Room, length: nat, pages: seq<Page>, walked: nat)
    requires IsRoom(room) && length <= |room.stream| && 0 < walked <= |pages|
  {
    var newer := |Flatten(pages[..walked - 1])|;
    && newer <= length && At(room, length - newer) <= At(room, length) <= |room.trail.events|
    && ProvesCoverage(room, pages[walked - 1], At(room, length - newer), At(room, length))
  }

  /** While connected every new event is merged; connecting loads the snapshot and walks back
      with both rules on.  A walk ended by the coverage rule alone had the evidence. */
  ghost predicate Goes(room: Room, c: Client, step: Session, d: Client)
    requires IsRoom(room)
  {
    match step
    case Live(upto) =>
      Steps(room.stream, c, Restart.Sync(upto), d)
    case Connect(cells, length, pages, walked) =>
      && c.covered <= length <= |room.stream| && PagesOf(pages, room.stream[..length])
      && ListsExactly(cells, c.state.cells)
      && Walks(pages, walked, true, c.marker, true)
      && (EndedByCoverage(pages, walked, true, c.marker) ==> Evidence(room, length, pages, walked))
      && d.state == WalkedState(Loaded(EMPTY, cells, c.state.clock), pages, walked)
      && d.marker == WalkedMarker(c.marker, pages, walked)
      && d.covered == length && d.applied == c.applied + ReceivedAll(Flatten(pages[..walked]))
  }

  /** The reader's cells are the merge of updates of the room that hold everything live, and
      its marker is no later than the part of the room it has been through. */
  ghost predicate UpToDate(room: Room, c: Client)
    requires IsRoom(room)
  {
    && c.covered <= |room.stream| && At(room, c.covered) <= |room.trail.events|
    && c.state == ApplyAll(EMPTY, c.applied)
    && c.marker <= MarkerOf(room.stream[..c.covered])
    && (forall x :: x in c.applied ==> Fetched(room, 0, At(room, c.covered), x))
    && HoldsLive(room, At(room, c.covered), c.applied)
  }

  lemma FetchedGrows(room: Room, n: nat, n2: nat, us: seq<Update>)
    requires IsRoom(room) && n <= n2 <= |room.trail.events|
    requires forall x :: x in us ==> Fetched(room, 0, n, x)
    ensures forall x :: x in us ==> Fetched(room, 0, n2, x)
  {
    forall x | x in us ensures Fetched(room, 0, n2, x) {
      var k, u :| 0 <= k < n && u in room.trail.events[k] && x == Stamped(u, room.ots[k]);
    }
  }

  lemma MarkerStaysWithin(room: Room, p: nat, length: nat, es: seq<Event>, marker: Timestamp)
    requires p <= length <= |room.stream| && marker <= MarkerOf(room.stream[..p])
    requires forall e :: e in es ==> e in room.stream[..length]
    ensures Max(marker, MarkerOf(es)) <= MarkerOf(room.stream[..length])
  {
    assert forall e :: e in room.stream[..p] ==> e in room.stream[..length];
    MarkerOfPart(room.stream[..p], room.stream[..length]);
    MarkerOfPart(es, room.stream[..length]);
  }

  lemma LiveKeepsUpToDate(room: Room, c: Client, upto: nat, d: Client)
    requires IsRoom(room) && UpToDate(room, c) && Goes(room, c, Live(upto), d)
    ensures UpToDate(room, d)
  {
    var part := room.stream[c.covered..upto];
    var n, n2 := At(room, c.covered), At(room, upto);
    AtGrows(room, c.covered, upto);
    ApplyAllAppend(EMPTY, c.applied, ReceivedAll(part));
    forall x ensures x in ReceivedAll(part) <==> Fetched(room, n, n2, x) {
      ReadingFetches(room, c.covered, upto, part, x);
    }
    FetchedGrows(room, n, n2, c.applied);
    ReadingOnHoldsLive(room, n, n2, c.applied, ReceivedAll(part));
    MarkerStaysWithin(room, c.covered, upto, part, c.marker);
  }

  lemma MirroredHoldTheSame(es: seq<Event>, part: seq<Event>)
    requires |es| == |part| && forall i :: 0 <= i < |es| ==> part[|es| - 1 - i] == es[i]
    ensures forall e :: e in es <==> e in part
  {
    forall e | e in part ensures e in es {
      var i :| 0 <= i < |part| && part[i] == e;
      assert part[|es| - 1 - (|es| - 1 - i)] == es[|es| - 1 - i];
    }
  }

  /** What a walk has read: the newest part of the room, and in it the last page. */
  lemma PagesRead(room: Room, length: nat, pages: seq<Page>, walked: nat)
    requires IsRoom(room) && length <= |room.stream| && PagesOf(pages, room.stream[..length]) && walked <= |pages|
    ensures var es := Flatten(pages[..walked]);
      |es| <= length && forall e :: e in es <==> e in room.stream[length - |es|..length]
  {
    hide IsRoom, Flatten;
    WalkedAreNewest(pages, room.stream[..length], walked);
    var es := Flatten(pages[..walked]);
    MirroredHoldTheSame(es, room.stream[length - |es|..length]);
  }

  lemma LastPageRead(room: Room, length: nat, pages: seq<Page>, k: nat)
    requires IsRoom(room) && length <= |room.stream| && PagesOf(pages, room.stream[..length]) && k < |pages|
    ensures var hi, lo := length - |Flatten(pages[..k])|, length - |Flatten(pages[..k + 1])|;
      0 <= lo <= hi <= length && forall e :: e in pages[k] <==> e in room.stream[lo..hi]
  {
    hide IsRoom, Flatten;
    WalkedAreNewest(pages, room.stream[..length], k + 1);
    FlattenSnoc(pages, k);
    var es, page := Flatten(pages[..k + 1]), pages[k];
    var part := room.stream[length - |es|..length - |es| + |page|];
    forall i | 0 <= i < |page| ensures part[|page| - 1 - i] == page[i] {
      assert page[i] == es[|es| - |page| + i];
    }
    MirroredHoldTheSame(page, part);
  }

  /** The cells on the pages read are those emitted by the events read. */
  lemma {:induction false} SeenIsRead(pages: seq<Page>, k: nat)
    requires k <= |pages|
    ensures Seen(pages, k) == CellsOf(Flatten(pages[..k]))
  {
    hide CellsOf;
    if k > 0 {
      SeenIsRead(pages, k - 1);
      FlattenSnoc(pages, k - 1);
      CellsOfBoth(Flatten(pages[..k - 1]), pages[k - 1]);
    } else {
      NothingHeld();
    }
  }

  lemma NothingHeld()
    ensures Flatten([]) == [] && CellsOf([]) == {}
  {
  }

  lemma CellsOfBoth(a: seq<Event>, b: seq<Event>)
    ensures CellsOf(a + b) == CellsOf(a) + CellsOf(b)
  {
    hide ReceivedAll;
    ReceivedAllAppend(a, b);
  }

  lemma CellsAreEmitted(room: Room, a: nat, b: nat, es: seq<Event>, id: CellId)
    requires IsRoom(room) && a <= b <= |room.stream|
    requires forall e :: e in es <==> e in room.stream[a..b]
    ensures At(room, a) <= At(room, b) <= |room.trail.events|
    ensures id in CellsOf(es) <==> EmittedWithin(room.trail, At(room, a), At(room, b), id)
  {
    hide CellEvents, ReceivedAll;
    AtGrows(room, a, b);
    if id in CellsOf(es) {
      var x :| x in ReceivedAll(es) && x.id == id;
      ReadingFetches(room, a, b, es, x);
      var k, u :| At(room, a) <= k < At(room, b) && u in room.trail.events[k] && x == Stamped(u, room.ots[k]);
      assert Emits(room.trail.events[k], id);
    }
    if EmittedWithin(room.trail, At(room, a), At(room, b), id) {
      var k :| At(room, a) <= k < At(room, b) && Emits(room.trail.events[k], id);
      var u :| u in room.trail.events[k] && u.id == id;
      ReadingFetches(room, a, b, es, Stamped(u, room.ots[k]));
    }
  }

  /** A page without a cell that the newer pages lack is a stretch of the run without one. */
  lemma NoNewCell(room: Room, lo: nat, hi: nat, length: nat, page: Page, newer: seq<Event>)
    requires IsRoom(room) && lo <= hi <= length <= |room.stream|
    requires forall e :: e in page <==> e in room.stream[lo..hi]
    requires forall e :: e in newer <==> e in room.stream[hi..length]
    requires CellsOf(page) <= CellsOf(newer)
    ensures At(room, lo) <= At(room, hi) <= At(room, length) <= |room.trail.events|
    ensures PageAddsNothing(room.trail, At(room, lo), At(room, hi), At(room, length))
    ensures forall id :: id in CellsOf(page) ==> EmittedWithin(room.trail, At(room, lo), At(room, hi), id)
  {
    AtGrows(room, lo, hi);
    AtGrows(room, hi, length);
    hide CellEvents, At, ReceivedAll, CellsOf, IsRun, Skewed, SafeInputs;
    forall id ensures id in CellsOf(page) <==> EmittedWithin(room.trail, At(room, lo), At(room, hi), id)
      ensures id in CellsOf(newer) <==> EmittedWithin(room.trail, At(room, hi), At(room, length), id)
    {
      CellsAreEmitted(room, lo, hi, page, id);
      CellsAreEmitted(room, hi, length, newer, id);
    }
  }

  /** A walk ended by the coverage rule, with the evidence, has read everything live. */
  lemma CoverageStopHoldsLive(room: Room, lo: nat, hi: nat, length: nat, page: Page, newer: seq<Event>, vs: seq<Update>)
    requires IsRoom(room) && lo <= hi <= length <= |room.stream|
    requires forall e :: e in page <==> e in room.stream[lo..hi]
    requires forall e :: e in newer <==> e in room.stream[hi..length]
    requires CellsOf(page) <= CellsOf(newer)
    requires At(room, lo) <= At(room, hi) <= At(room, length) <= |room.trail.events|
    requires ProvesCoverage(room, page, At(room, hi), At(room, length))
    requires forall x :: Fetched(room, At(room, lo), At(room, length), x) ==> x in vs
    ensures HoldsLive(room, At(room, length), vs)
  {
    NoNewCell(room, lo, hi, length, page, newer);
    hide CellEvents, At, ReceivedAll, HoldsLive, CellsOf, IsRun, Skewed, SafeInputs;
    var c :| HoldsBumped(room, page, At(room, hi), At(room, length), c);
    assert EmittedWithin(room.trail, At(room, lo), At(room, hi), c);
    CoveringHoldsLive(room, At(room, lo), At(room, hi), At(room, length), c, vs);
  }

  /** Any other walk has read everything the snapshot may lack. */
  lemma OtherStopsReachTheSnapshot(room: Room, p: nat, marker: Timestamp, length: nat, pages: seq<Page>, walked: nat)
    requires IsRoom(room) && p <= length <= |room.stream| && PagesOf(pages, room.stream[..length])
    requires marker <= MarkerOf(room.stream[..p])
    requires RunsOut(pages, walked, true, marker, true)
      || (0 < walked <= |pages| && CaughtUp(true, Oldest(pages[walked - 1]), marker))
    ensures walked <= |pages| && |Flatten(pages[..walked])| >= length - p
  {
    if RunsOut(pages, walked, true, marker, true) {
      assert pages[..walked] == pages;
    } else {
      assert room.stream[..length][..p] == room.stream[..p];
      GraceStopMissesNothing(room.stream[..length], p, pages, walked);
    }
  }

  lemma FetchedIsWellFormed(room: Room, n: nat, x: Update)
    requires IsRoom(room) && n <= |room.trail.events| && Fetched(room, 0, n, x)
    ensures WellFormed(x)
  {
    assert room.stream[0..|room.stream|] == room.stream && room.stream[..|room.stream|] == room.stream;
    assert room.stream[..0] == [] && At(room, 0) == 0 && At(room, |room.stream|) == |room.trail.events|;
    FetchedGrows(room, n, |room.trail.events|, [x]);
    assert x in [x];
    ReadingFetches(room, 0, |room.stream|, room.stream, x);
  }

  /** What a connection leaves in the workspace: the merge of the snapshot and the pages. */
  lemma ConnectMerges(room: Room, c: Client, cells: seq<Update>, length: nat, pages: seq<Page>, walked: nat, d: Client)
    requires IsRoom(room) && UpToDate(room, c) && Goes(room, c, Connect(cells, length, pages, walked), d)
    ensures walked <= |pages| && d.state == ApplyAll(EMPTY, d.applied)
    ensures d.marker == Max(c.marker, MarkerOf(Flatten(pages[..walked])))
  {
    forall x | x in c.applied ensures WellFormed(x) { FetchedIsWellFormed(room, At(room, c.covered), x); }
    ReloadIsIdentity(c.state, c.applied, cells);
    WalkedPages(c.state, c.marker, pages, walked);
    ApplyAllAppend(EMPTY, c.applied, ReceivedAll(Flatten(pages[..walked])));
  }

  lemma MoreStillHoldsLive(room: Room, n: nat, us: seq<Update>, vs: seq<Update>)
    requires IsRoom(room) && n <= |room.trail.events| && HoldsLive(room, n, vs)
    ensures HoldsLive(room, n, us + vs)
  {
  }

  lemma CoverageEndHoldsLive(room: Room, marker: Timestamp, length: nat, pages: seq<Page>, walked: nat,
                             vs: seq<Update>)
    requires IsRoom(room) && length <= |room.stream| && PagesOf(pages, room.stream[..length])
    requires EndedByCoverage(pages, walked, true, marker) && Evidence(room, length, pages, walked)
    requires walked <= |pages| && |Flatten(pages[..walked])| <= length
    requires At(room, length - |Flatten(pages[..walked])|) <= At(room, length) <= |room.trail.events|
    requires forall x :: Fetched(room, At(room, length - |Flatten(pages[..walked])|), At(room, length), x) ==> x in vs
    ensures HoldsLive(room, At(room, length), vs)
  {
    hide CellEvents, At, ReceivedAll, Flatten, HoldsLive, IsRun, Skewed, SafeInputs, Coalesces;
    var newer, first := Flatten(pages[..walked - 1]), length - |Flatten(pages[..walked])|;
    LastPageRead(room, length, pages, walked - 1);
    PagesRead(room, length, pages, walked - 1);
    SeenIsRead(pages, walked - 1);
    AtGrows(room, first, length - |newer|);
    AtGrows(room, length - |newer|, length);
    CoverageStopHoldsLive(room, first, length - |newer|, length, pages[walked - 1], newer, vs);
  }

  lemma ConnectHoldsLive(room: Room, c: Client, cells: seq<Update>, length: nat, pages: seq<Page>, walked: nat,
                         d: Client)
    requires IsRoom(room) && UpToDate(room, c) && Goes(room, c, Connect(cells, length, pages, walked), d)
    requires walked <= |pages| && |Flatten(pages[..walked])| <= length
    requires forall e :: e in Flatten(pages[..walked]) <==>
               e in room.stream[length - |Flatten(pages[..walked])|..length]
    ensures At(room, length) <= |room.trail.events| && HoldsLive(room, At(room, length), d.applied)
  {
    hide CellEvents, At, ReceivedAll, Flatten, HoldsLive, IsRun, Skewed, SafeInputs, Coalesces;
    var es := Flatten(pages[..walked]);
    var vs, first := ReceivedAll(es), length - |es|;
    AtGrows(room, first, length);
    AtGrows(room, c.covered, length);
    forall x | Fetched(room, At(room, first), At(room, length), x) ensures x in vs {
      ReadingFetches(room, first, length, es, x);
    }
    if EndedByCoverage(pages, walked, true, c.marker) {
      CoverageEndHoldsLive(room, c.marker, length, pages, walked, vs);
      MoreStillHoldsLive(room, At(room, length), c.applied, vs);
    } else {
      OtherStopsReachTheSnapshot(room, c.covered, c.marker, length, pages, walked);
      AtGrows(room, first, c.covered);
      ReadingOnHoldsLive(room, At(room, c.covered), At(room, length), c.applied, vs);
    }
  }

  lemma ConnectKeepsUpToDate(room: Room, c: Client, cells: seq<Update>, length: nat, pages: seq<Page>, walked: nat,
                             d: Client)
    requires IsRoom(room) && UpToDate(room, c) && Goes(room, c, Connect(cells, length, pages, walked), d)
    ensures UpToDate(room, d)
  {
    ConnectMerges(room, c, cells, length, pages, walked, d);
    PagesRead(room, length, pages, walked);
    ConnectHoldsLive(room, c, cells, length, pages, walked, d);
    hide CellEvents, ReceivedAll, Flatten, HoldsLive;
    var es := Flatten(pages[..walked]);
    MarkerStaysWithin(room, c.covered, length, es, c.marker);
    AtGrows(room, length - |es|, length);
    AtGrows(room, c.covered, length);
    FetchedGrows(room, At(room, c.covered), At(room, length), c.applied);
    forall x | x in ReceivedAll(es) ensures Fetched(room, 0, At(room, length), x) {
      ReadingFetches(room, length - |es|, length, es, x);
    }
  }

  ghost predicate AreSessions(room: Room, clients: seq<Client>, steps: seq<Session>)
    requires IsRoom(room)
  {
    && |clients| == |steps| + 1 && clients[0] == FRESH
    && forall k :: 0 <= k < |steps| ==> Goes(room, clients[k], steps[k], clients[k + 1])
  }

  /** Through any number of sessions the reader stays up to date. */
  lemma {:induction false} SessionsStayUpToDate(room: Room, clients: seq<Client>, steps: seq<Session>)
    requires IsRoom(room) && AreSessions(room, clients, steps)
    ensures UpToDate(room, clients[|steps|])
  {
    if steps == [] {
      assert room.stream[..0] == [];
    } else {
      var n := |steps| - 1;
      SessionsStayUpToDate(room, clients[..n + 1], steps[..n]);
      assert Goes(room, clients[n], steps[n], clients[n + 1]);
      match steps[n] {
        case Live(upto) => LiveKeepsUpToDate(room, clients[n], upto, clients[n + 1]);
        case Connect(cells, length, pages, walked) =>
          ConnectKeepsUpToDate(room, clients[n], cells, length, pages, walked, clients[n + 1]);
      }
    }
  }

  lemma ReplayHoldsLive(room: Room, p: nat)
    requires IsRoom(room) && p <= |room.stream|
    ensures At(room, p) <= |room.trail.events|
    ensures HoldsLive(room, At(room, p), ReceivedAll(room.stream[..p]))
    ensures forall x :: x in ReceivedAll(room.stream[..p]) ==> Fetched(room, 0, At(room, p), x)
  {
    var es := room.stream[..p];
    AtGrows(room, 0, p);
    assert room.stream[0..p] == es && room.stream[..0] == [] && At(room, 0) == 0;
    forall x ensures x in ReceivedAll(es) <==> Fetched(room, 0, At(room, p), x) {
      ReadingFetches(room, 0, p, es, x);
    }
    forall k: nat, u | Current(room, At(room, p), k, u) ensures Stamped(u, room.ots[k]) in ReceivedAll(es) {
      assert Fetched(room, 0, At(room, p), Stamped(u, room.ots[k]));
    }
  }

  /** The writer's workspace when event `n` of the room had been put together. */
  ghost function WriterAt(room: Room, n: nat): State
    requires IsRoom(room) && n <= |room.trail.events|
  {
    CutsAscend(room.cuts, |room.run.events|, n, n);
    room.run.states[room.cuts[n]]
  }

  /** After any number of sessions, with both stop rules on, the reader agrees with the writer
      as of the point it has reached: each cell live there is held exactly as replaying the
      whole room would give it, and with the writer's value and stamp. */
  lemma SessionsAgreeWithTheRoom(room: Room, clients: seq<Client>, steps: seq<Session>)
    requires IsRoom(room) && AreSessions(room, clients, steps)
    ensures var c := clients[|steps|];
      && c.covered <= |room.stream| && At(room, c.covered) <= |room.trail.events|
      && var live, full := WriterAt(room, At(room, c.covered)).cells,
        ApplyAll(EMPTY, ReceivedAll(room.stream[..c.covered])).cells;
        && Agrees(live, c.state.cells)
        && forall id :: Bumpable(live, id) ==> id in c.state.cells && id in full && c.state.cells[id] == full[id]
  {
    SessionsStayUpToDate(room, clients, steps);
    var c := clients[|steps|];
    var n, us, all := At(room, c.covered), c.applied, ReceivedAll(room.stream[..c.covered]);
    hide CellEvents, ReceivedAll, Flatten, HoldsLive, At;
    assert WriterAt(room, n) == room.trail.states[n];
    ApplyAllFacts(EMPTY, us);
    ApplyAllFacts(EMPTY, all);
    HoldingLiveAgrees(room, n, us);
    ReplayHoldsLive(room, c.covered);
    forall id | Bumpable(room.trail.states[n].cells, id)
      ensures id in PutAll(map[], us) && id in PutAll(map[], all) && PutAll(map[], us)[id] == PutAll(map[], all)[id]
    {
      SameLiveCells(room, n, us, all, id);
    }
  }

  /** What the user sees: once all of the room has been taken in, every live row is listed and
      read alike by the reader and the writer. */
  lemma SessionsShowTheRoom(room: Room, clients: seq<Client>, steps: seq<Session>, t: string, r: string)
    requires IsRoom(room) && AreSessions(room, clients, steps)
    requires clients[|steps|].covered == |room.stream|
    requires LiveRow(room.run.states[|room.run.events|].cells, t, r)
    ensures var live, m := room.run.states[|room.run.events|].cells, clients[|steps|].state.cells;
      && (Listed(live, t, r) <==> Listed(m, t, r))
      && (Listed(live, t, r) ==> forall col :: ReadCell(live, t, r, col) == ReadCell(m, t, r, col))
  {
    SessionsAgreeWithTheRoom(room, clients, steps);
    assert room.stream[..|room.stream|] == room.stream;
    LiveRowsShowTheSame(room.run.states[|room.run.events|].cells, clients[|steps|].state.cells, t, r);
  }
}
