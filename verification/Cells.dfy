/** Cells, cell updates and the last-write-wins merge. */
module Cells {
  // A workspace is a set of cells, each addressed by table, row and column and merged
  // independently of the others.  This module states what the merge keeps and exactly when
  // the order in which updates arrive cannot matter.

  datatype Option<+T> = None | Some(value: T)

  const U64_MAX: int := 0xFFFF_FFFF_FFFF_FFFF

  /** A `u64` of milliseconds. */
  type Timestamp = t: int | 0 <= t <= U64_MAX

  /** A JSON value.  `Num` is an integer; arrays, objects and fractions are `Opaque`. */
  datatype Value = Null | Bool(b: bool) | Num(n: int) | Str(s: string) | Opaque(tag: int)

  datatype CellId = CellId(table: string, row: string, col: string)

  datatype Cell = Cell(value: Value, ts: Timestamp, server: Option<Timestamp>)

  datatype Update = Update(id: CellId, cell: Cell)

  type CellMap = map<CellId, Cell>

  /** A write stamped by this device: it has no server timestamp yet. */
  function LocalUpdate(id: CellId, value: Value, ts: Timestamp): Update {
    Update(id, Cell(value, ts, None))
  }

  /** An update as received carries the server's timestamp of its event. */
  function Stamped(u: Update, ots: Timestamp): Update {
    Update(u.id, Cell(u.cell.value, u.cell.ts, Some(ots)))
  }

  function Receive(us: seq<Update>, ots: Timestamp): seq<Update> {
    seq(|us|, i requires 0 <= i < |us| => Stamped(us[i], ots))
  }

  datatype Winner = Left | Right

  function ResolveLww(a: Cell, b: Cell): Winner {
    if a.ts > b.ts then Left
    else if a.ts < b.ts then Right
    else match (a.server, b.server)
      case (Some(st1), Some(st2)) => if st1 >= st2 then Left else Right
      case (Some(_), None) => Left
      case (None, Some(_)) => Right
      case (None, None) => Left
  }

  predicate WinsOver(a: Cell, b: Cell) {
    ResolveLww(a, b) == Left
  }

  /** Neither cell beats the other: `WinsOver` holds both ways. */
  predicate Tie(a: Cell, b: Cell) {
    a.ts == b.ts && a.server == b.server
  }

  function ServerRank(c: Cell): int {
    match c.server case None => -1 case Some(t) => t
  }

  /** The merge order is a total preorder on (timestamp, server timestamp), where a
      missing server timestamp ranks below every present one. */
  lemma WinsOverIsRankOrder(a: Cell, b: Cell)
    ensures WinsOver(a, b) <==> a.ts > b.ts || (a.ts == b.ts && ServerRank(a) >= ServerRank(b))
    ensures WinsOver(a, b) <==>
      a.ts > b.ts || (a.ts == b.ts && (b.server.None? || (a.server.Some? && a.server.value >= b.server.value)))
    ensures WinsOver(a, b) || WinsOver(b, a)
    ensures WinsOver(a, b) && WinsOver(b, a) <==> Tie(a, b)
  {
  }

  /** Apply one update: it replaces the held cell iff it wins over it. */
  function Put(m: CellMap, u: Update): CellMap {
    if u.id in m && !WinsOver(u.cell, m[u.id]) then m else m[u.id := u.cell]
  }

  function PutAll(m: CellMap, us: seq<Update>): CellMap {
    if us == [] then m else Put(PutAll(m, us[..|us| - 1]), us[|us| - 1])
  }

  /** `c` is offered for `id`, either as the cell held before or by an update. */
  ghost predicate Offered(m: CellMap, us: seq<Update>, id: CellId, c: Cell) {
    (id in m && m[id] == c) || Update(id, c) in us
  }

  lemma WinsOverIsAnOrder(a: Cell, b: Cell)
    ensures WinsOver(a, a) && (WinsOver(a, b) || WinsOver(b, a))
    ensures forall c :: WinsOver(a, b) && WinsOver(b, c) ==> WinsOver(a, c)
    ensures forall c :: WinsOver(c, b) && !WinsOver(a, b) ==> !WinsOver(a, c)
    ensures forall c :: WinsOver(c, a) && WinsOver(a, b) ==> WinsOver(c, b)
  {
  }

  /** The merge keeps, for every cell, an offered cell that no offered cell outranks. */
  lemma {:induction false} PutAllKeepsWinner(m: CellMap, us: seq<Update>, id: CellId)
    ensures id in PutAll(m, us) <==> exists c :: Offered(m, us, id, c)
    ensures id in PutAll(m, us) ==>
      && Offered(m, us, id, PutAll(m, us)[id])
      && (forall c :: Offered(m, us, id, c) ==> WinsOver(PutAll(m, us)[id], c))
      && (Update(id, PutAll(m, us)[id]) in us
          || forall c :: Update(id, c) in us ==> !WinsOver(c, PutAll(m, us)[id]))
  {
    hide WinsOver;
    if us == [] {
      if id in m {
        assert Offered(m, us, id, m[id]);
        WinsOverIsAnOrder(m[id], m[id]);
      }
    } else {
      var n := |us| - 1;
      var init, last := us[..n], us[n];
      PutAllKeepsWinner(m, init, id);
      if id in PutAll(m, init) { WinsOverIsAnOrder(last.cell, PutAll(m, init)[id]); }
      assert us == init + [last];
      forall c ensures Offered(m, us, id, c) <==> Offered(m, init, id, c) || last == Update(id, c) {
        assert Update(id, c) in us <==> Update(id, c) in init || Update(id, c) == last;
      }
      if last.id == id {
        WinsOverIsAnOrder(last.cell, last.cell);
        assert Update(id, last.cell) == last;
        assert Offered(m, us, id, last.cell);
      }
    }
  }

  lemma {:induction false} PutAllElsewhere(m: CellMap, us: seq<Update>, id: CellId)
    requires forall u :: u in us ==> u.id != id
    ensures id in PutAll(m, us) <==> id in m
    ensures id in m ==> PutAll(m, us)[id] == m[id]
  {
    if us != [] {
      assert us[|us| - 1] in us;
      PutAllElsewhere(m, us[..|us| - 1], id);
    }
  }

  ghost predicate SameUpdates(us: seq<Update>, vs: seq<Update>) {
    forall u :: u in us <==> u in vs
  }

  /** Two different updates of one cell tie only when some offer outranks both. */
  ghost predicate TiesOutranked(m: CellMap, us: seq<Update>) {
    forall id, c, d :: Update(id, c) in us && Update(id, d) in us && Tie(c, d) && c != d
      ==> exists e :: Offered(m, us, id, e) && !WinsOver(c, e)
  }

  /** Convergence.  Replicas that apply the same updates, in any order and with any
      repetition, hold the same cells, provided no tie is left at the top. */
  lemma Convergence(m: CellMap, us: seq<Update>, vs: seq<Update>)
    requires SameUpdates(us, vs) && TiesOutranked(m, us)
    ensures PutAll(m, us) == PutAll(m, vs)
  {
    var a, b := PutAll(m, us), PutAll(m, vs);
    forall id ensures id in a <==> id in b
      ensures id in a ==> a[id] == b[id]
    {
      PutAllKeepsWinner(m, us, id);
      PutAllKeepsWinner(m, vs, id);
      assert forall c :: Offered(m, us, id, c) <==> Offered(m, vs, id, c);
      if id in a {
        WinsOverIsRankOrder(a[id], b[id]);
      }
    }
  }

  /** Arriving once more, a topmost update takes the cell. */
  lemma TopmostTakesTheCell(m: CellMap, us: seq<Update>, id: CellId, c: Cell)
    requires Update(id, c) in us && forall e :: Offered(m, us, id, e) ==> WinsOver(c, e)
    ensures SameUpdates(us, us + [Update(id, c)])
    ensures id in PutAll(m, us + [Update(id, c)]) && PutAll(m, us + [Update(id, c)])[id] == c
  {
    hide WinsOver;
    PutAllKeepsWinner(m, us, id);
    assert (us + [Update(id, c)])[..|us|] == us;
  }

  /** The condition is exact: arrival order is irrelevant iff every tie between different
      updates is outranked. */
  lemma OrderIrrelevantIffTiesOutranked(m: CellMap, us: seq<Update>)
    ensures (forall vs :: SameUpdates(us, vs) ==> PutAll(m, vs) == PutAll(m, us)) <==> TiesOutranked(m, us)
  {
    hide PutAll, Offered, SameUpdates;
    if TiesOutranked(m, us) {
      forall vs | SameUpdates(us, vs) ensures PutAll(m, vs) == PutAll(m, us) {
        Convergence(m, us, vs);
      }
    } else {
      var id, c, d :| Update(id, c) in us && Update(id, d) in us && Tie(c, d) && c != d
        && forall e :: Offered(m, us, id, e) ==> WinsOver(c, e);
      forall e | Offered(m, us, id, e) ensures WinsOver(d, e) {
        WinsOverIsRankOrder(c, e);
        WinsOverIsRankOrder(d, e);
      }
      TopmostTakesTheCell(m, us, id, c);
      TopmostTakesTheCell(m, us, id, d);
    }
  }

  /** Re-applying cells that are already merged changes nothing, so overlapping reads of
      history are harmless. */
  lemma {:induction false} PutAllIdempotent(m: CellMap, us: seq<Update>)
    requires forall u :: u in us ==> u.id in m && (m[u.id] == u.cell || !WinsOver(u.cell, m[u.id]))
    ensures PutAll(m, us) == m
  {
    if us != [] {
      var n := |us| - 1;
      PutAllIdempotent(m, us[..n]);
      assert us[n] in us;
    }
  }

  /** An update stamped past what its cell holds is held, if it is the only one of its cell. */
  lemma FreshIsHeld(m: CellMap, us: seq<Update>, u: Update)
    requires u in us && (u.id in m ==> m[u.id].ts < u.cell.ts) && forall v :: v in us && v.id == u.id ==> v == u
    ensures u.id in PutAll(m, us) && PutAll(m, us)[u.id] == u.cell
  {
    PutAllKeepsWinner(m, us, u.id);
    assert u == Update(u.id, u.cell) && Offered(m, us, u.id, u.cell);
    var won := PutAll(m, us)[u.id];
    WinsOverIsRankOrder(won, u.cell);
    assert Offered(m, us, u.id, won);
  }

  /** Of two writes of a cell under one stamp the one that reached the room later is held, in
      whatever order a device learns of them, and one that reached it beats one that has not. */
  lemma LaterArrivalWins(id: CellId, v: Value, w: Value, ts: Timestamp, o1: Timestamp, o2: Timestamp)
    requires o1 < o2
    ensures var a, b := Receive([LocalUpdate(id, v, ts)], o1), Receive([LocalUpdate(id, w, ts)], o2);
      var unsent := [LocalUpdate(id, v, ts)];
      && PutAll(map[], a + b) == PutAll(map[], b + a) == PutAll(map[], unsent + b) == PutAll(map[], b + unsent)
      && PutAll(map[], a + b) == map[id := Cell(w, ts, Some(o2))]
  {
    var a, b := Update(id, Cell(v, ts, Some(o1))), Update(id, Cell(w, ts, Some(o2)));
    var unsent := LocalUpdate(id, v, ts);
    assert Receive([LocalUpdate(id, v, ts)], o1) == [a] && Receive([LocalUpdate(id, w, ts)], o2) == [b];
    PairIsHeld(a, b);
    PairIsHeld(b, a);
    PairIsHeld(unsent, b);
    PairIsHeld(b, unsent);
  }

  lemma PairIsHeld(x: Update, y: Update)
    ensures PutAll(map[], [x] + [y]) == Put(Put(map[], x), y)
  {
    assert ([x] + [y])[..1] == [x] && [x][..0] == [];
    assert PutAll(map[], [x]) == Put(PutAll(map[], []), x);
  }
}
