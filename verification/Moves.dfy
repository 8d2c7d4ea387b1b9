/** Moving a row: which ordering keys to write so that sorting by key gives the new order. */
module Moves {
  import opened Cells
  import opened Order
  import opened FractionalIndex

  datatype OrderRow = OrderRow(id: string, key: Option<string>)

  datatype Position = First | Last | Before(target: string) | After(target: string)

  datatype KeyWrite = KeyWrite(id: string, key: string)

  /** `Panic` stands for a failed assertion in key generation. */
  datatype MoveResult = Moved(writes: seq<KeyWrite>) | NoSuchRow | ToItself | NoAnchor | Panic

  ghost predicate DistinctRows(rows: seq<OrderRow>) {
    forall i, j :: 0 <= i < j < |rows| ==> rows[i].id != rows[j].id
  }

  ghost predicate HasRow(rows: seq<OrderRow>, id: string) {
    exists i :: 0 <= i < |rows| && rows[i].id == id
  }

  method FindRow(rows: seq<OrderRow>, id: string) returns (at: Option<nat>)
    ensures at.Some? ==> at.value < |rows| && rows[at.value].id == id
    ensures at.Some? ==> forall i :: 0 <= i < at.value ==> rows[i].id != id
    ensures at.Some? <==> HasRow(rows, id)
  {
    for i := 0 to |rows|
      invariant forall k :: 0 <= k < i ==> rows[k].id != id
    {
      if rows[i].id == id { return Some(i); }
    }
    at := None;
  }

  function Removed(rows: seq<OrderRow>, at: nat): seq<OrderRow>
    requires at < |rows|
  {
    rows[..at] + rows[at + 1..]
  }

  function Inserted(rows: seq<OrderRow>, at: nat, row: OrderRow): seq<OrderRow>
    requires at <= |rows|
  {
    rows[..at] + [row] + rows[at..]
  }

  predicate AllKeyed(rows: seq<OrderRow>) {
    forall i :: 0 <= i < |rows| ==> rows[i].key.Some?
  }

  /** The key of the row before index `at`, and of the one after it. */
  function KeyBefore(rows: seq<OrderRow>, at: nat): Option<string>
    requires at <= |rows|
  {
    if at == 0 then None else rows[at - 1].key
  }

  function KeyAfter(rows: seq<OrderRow>, at: nat): Option<string> {
    if at + 1 < |rows| then rows[at + 1].key else None
  }

  /** One write when every row has a key already, otherwise new keys for all. */
  function WritesFor(rows: seq<OrderRow>, id: string, reordered: seq<OrderRow>, at: nat): Option<seq<KeyWrite>>
    requires at < |reordered|
  {
    if AllKeyed(rows) then
      var k := GenerateKeyBetween(KeyBefore(reordered, at), KeyAfter(reordered, at));
      if k.Some? then Some([KeyWrite(id, k.value)]) else None
    else
      var keys := GenerateNKeysBetween(None, None, |reordered|);
      if keys.None? || |keys.value| != |reordered| then None
      else Some(seq(|reordered|, i requires 0 <= i < |reordered| => KeyWrite(reordered[i].id, keys.value[i])))
  }

  /** `at` is where the move puts the row among the others. */
  ghost predicate Lands(others: seq<OrderRow>, p: Position, at: nat) {
    match p
    case First => at == 0
    case Last => at == |others|
    case Before(target) => at < |others| && others[at].id == target
    case After(target) => 0 < at <= |others| && others[at - 1].id == target
  }

  /** Compute the writes that move `id`; `reordered` is the order they bring about. */
  method ComputeMoveWrites(rows: seq<OrderRow>, id: string, p: Position)
    returns (r: MoveResult, ghost from: nat, ghost at: nat, ghost reordered: seq<OrderRow>)
    requires DistinctRows(rows)
    ensures r == NoSuchRow <==> !HasRow(rows, id)
    ensures r == ToItself <==> HasRow(rows, id) && (p == Before(id) || p == After(id))
    ensures r == NoAnchor <==> HasRow(rows, id) && (p.Before? || p.After?) && p.target != id && !HasRow(rows, p.target)
    ensures r.Moved? || r == Panic ==>
      && from < |rows| && rows[from].id == id
      && Lands(Removed(rows, from), p, at)
      && at < |rows| && reordered == Inserted(Removed(rows, from), at, rows[from])
      && r == (var ws := WritesFor(rows, id, reordered, at); if ws.Some? then Moved(ws.value) else Panic)
  {
    hide WritesFor, DistinctRows;
    from, at, reordered := 0, 0, [];
    var f := FindRow(rows, id);
    if f.None? { return NoSuchRow, from, at, reordered; }
    from := f.value;
    var others := Removed(rows, f.value);
    var dest: nat := 0;
    if p.Last? {
      dest := |others|;
    } else if !p.First? {
      if p.target == id { return ToItself, from, at, reordered; }
      var t := FindRow(others, p.target);
      RemovedHoldsTheRest(rows, f.value);
      if t.None? {
        return NoAnchor, from, at, reordered;
      }
      dest := if p.Before? then t.value else t.value + 1;
    }
    at := dest;
    var order := Inserted(others, dest, rows[f.value]);
    reordered := order;
    var ws := FindWrites(rows, id, order, dest);
    r := if ws.Some? then Moved(ws.value) else Panic;
  }

  /** Where that is: first, last, right before the target or right after it; and the other rows
      keep their order. */
  lemma MoveLandsWhereAsked(rows: seq<OrderRow>, from: nat, p: Position, at: nat, reordered: seq<OrderRow>)
    requires from < |rows| && at < |rows| && Lands(Removed(rows, from), p, at)
    requires reordered == Inserted(Removed(rows, from), at, rows[from])
    ensures |reordered| == |rows| && reordered[at] == rows[from]
    ensures reordered[..at] + reordered[at + 1..] == rows[..from] + rows[from + 1..]
    ensures match p
      case First => at == 0
      case Last => at == |rows| - 1
      case Before(target) => at + 1 < |rows| && reordered[at + 1].id == target
      case After(target) => at > 0 && reordered[at - 1].id == target
  {
    var others := Removed(rows, from);
    assert reordered[..at] == others[..at] && reordered[at + 1..] == others[at..];
  }

  lemma RemovedHoldsTheRest(rows: seq<OrderRow>, at: nat)
    requires at < |rows|
    ensures forall i :: 0 <= i < |rows| && i != at ==> rows[i] in Removed(rows, at)
    ensures forall row :: row in Removed(rows, at) ==> row in rows
  {
    var others := Removed(rows, at);
    forall i | 0 <= i < |rows| && i != at ensures rows[i] in others {
      if i < at { assert others[i] == rows[i]; } else { assert others[i - 1] == rows[i]; }
    }
  }

  method FindWrites(rows: seq<OrderRow>, id: string, reordered: seq<OrderRow>, at: nat)
    returns (ws: Option<seq<KeyWrite>>)
    requires at < |reordered|
    ensures ws == WritesFor(rows, id, reordered, at)
  {
    if AllKeyed(rows) {
      var k := FindKeyBetween(KeyBefore(reordered, at), KeyAfter(reordered, at));
      ws := if k.Some? then Some([KeyWrite(id, k.value)]) else None;
    } else {
      var keys := FindNKeysBetween(None, None, |reordered|);
      if keys.None? || |keys.value| != |reordered| { return None; }
      ws := Some(seq(|reordered|, i requires 0 <= i < |reordered| => KeyWrite(reordered[i].id, keys.value[i])));
    }
  }

  // ---- what the writes bring about ----

  /** The key of a row once the writes are applied. */
  function KeyAfterWrites(ws: seq<KeyWrite>, row: OrderRow): Option<string> {
    if ws == [] then row.key
    else if ws[|ws| - 1].id == row.id then Some(ws[|ws| - 1].key)
    else KeyAfterWrites(ws[..|ws| - 1], row)
  }

  /** Sorting by key puts the rows in this order: each has a key, strictly below the next. */
  ghost predicate SortedByKey(order: seq<OrderRow>, ws: seq<KeyWrite>) {
    && (forall i :: 0 <= i < |order| ==> KeyAfterWrites(ws, order[i]).Some?)
    && (forall i, j :: 0 <= i < j < |order| ==>
          Less(KeyAfterWrites(ws, order[i]).value, KeyAfterWrites(ws, order[j]).value))
  }

  ghost predicate AscendingKeys(rows: seq<OrderRow>) {
    && (forall i :: 0 <= i < |rows| ==> rows[i].key.Some? && IsKey(rows[i].key.value) && rows[i].key.value != "")
    && (forall i, j :: 0 <= i < j < |rows| ==> Less(rows[i].key.value, rows[j].key.value))
  }

  lemma {:induction false} WrittenKey(ws: seq<KeyWrite>, i: nat, row: OrderRow)
    requires i < |ws| && ws[i].id == row.id && forall j, k :: 0 <= j < k < |ws| ==> ws[j].id != ws[k].id
    ensures KeyAfterWrites(ws, row) == Some(ws[i].key)
  {
    var n := |ws| - 1;
    if i < n { WrittenKey(ws[..n], i, row); }
  }

  /** Backfilling: with fresh keys for all, the rows sort exactly into the new order. */
  lemma BackfillSorts(rows: seq<OrderRow>, id: string, reordered: seq<OrderRow>, at: nat)
    requires at < |reordered| && DistinctRows(reordered) && !AllKeyed(rows)
    ensures var ws := WritesFor(rows, id, reordered, at);
      ws.Some? && |ws.value| == |reordered| && SortedByKey(reordered, ws.value)
  {
    NKeysAreWithin(None, None, |reordered|);
    var keys := GenerateNKeysBetween(None, None, |reordered|).value;
    var ws := WritesFor(rows, id, reordered, at).value;
    forall i | 0 <= i < |reordered| ensures KeyAfterWrites(ws, reordered[i]) == Some(keys[i]) {
      WrittenKey(ws, i, reordered[i]);
    }
  }

  lemma OtherKeysKept(id: string, key: string, row: OrderRow)
    ensures KeyAfterWrites([KeyWrite(id, key)], row) == if row.id == id then Some(key) else row.key
  {
    assert [KeyWrite(id, key)][..0] == [];
  }

  /** The rows around the one moved stay in ascending order. */
  lemma OthersAscend(rows: seq<OrderRow>, from: nat)
    requires from < |rows| && AscendingKeys(rows) && DistinctRows(rows)
    ensures AscendingKeys(Removed(rows, from)) && DistinctRows(Removed(rows, from))
    ensures forall i :: 0 <= i < |rows| - 1 ==> Removed(rows, from)[i].id != rows[from].id
  {
    var others := Removed(rows, from);
    forall i | 0 <= i < |others| ensures others[i] == if i < from then rows[i] else rows[i + 1] {}
  }

  lemma NeighboursAreInOrder(others: seq<OrderRow>, at: nat, row: OrderRow)
    requires at <= |others| && AscendingKeys(others)
    ensures var o := Inserted(others, at, row);
      o[at] == row && GoodBounds(KeyBefore(o, at), KeyAfter(o, at))
    ensures forall i :: 0 <= i < at ==> Inserted(others, at, row)[i] == others[i]
    ensures forall i :: at < i <= |others| ==> Inserted(others, at, row)[i] == others[i - 1]
  {
  }

  lemma AboveAllBefore(others: seq<OrderRow>, at: nat, k: string)
    requires at <= |others| && AscendingKeys(others)
    requires at > 0 ==> Less(others[at - 1].key.value, k)
    requires at < |others| ==> Less(k, others[at].key.value)
    ensures forall i :: 0 <= i < at ==> Less(others[i].key.value, k)
    ensures forall i :: at <= i < |others| ==> Less(k, others[i].key.value)
  {
    forall i | 0 <= i < at ensures Less(others[i].key.value, k) {
      if i < at - 1 { LessTransitive(others[i].key.value, others[at - 1].key.value, k); }
    }
    forall i | at <= i < |others| ensures Less(k, others[i].key.value) {
      if i > at { LessTransitive(k, others[at].key.value, others[i].key.value); }
    }
  }

  /** One write: when all rows have valid ascending keys, writing a single new key moves the row
      exactly where it should go and leaves every other row's key alone. */
  lemma SingleWriteSorts(rows: seq<OrderRow>, from: nat, at: nat)
    requires from < |rows| && at < |rows| && AscendingKeys(rows) && DistinctRows(rows)
    ensures var id, reordered := rows[from].id, Inserted(Removed(rows, from), at, rows[from]);
      var ws := WritesFor(rows, id, reordered, at);
      ws.Some? && |ws.value| == 1 && ws.value[0].id == id && SortedByKey(reordered, ws.value)
  {
    var id, others := rows[from].id, Removed(rows, from);
    var reordered := Inserted(others, at, rows[from]);
    OthersAscend(rows, from);
    NeighboursAreInOrder(others, at, rows[from]);
    var k := BetweenBounds(KeyBefore(reordered, at), KeyAfter(reordered, at));
    AboveAllBefore(others, at, k);
    forall i | 0 <= i < |reordered|
      ensures KeyAfterWrites([KeyWrite(id, k)], reordered[i]) == if i == at then Some(k) else reordered[i].key
    {
      OtherKeysKept(id, k, reordered[i]);
    }
  }

  /** With every row keyed the move panics exactly if the new neighbours' keys are not in
      order (they tie, say) or one of them ends in a zero. */
  lemma MovePanicsIff(rows: seq<OrderRow>, id: string, reordered: seq<OrderRow>, at: nat)
    requires at < |reordered| && AllKeyed(rows)
    requires forall i :: 0 <= i < |reordered| && reordered[i].key.Some? ==> IsDigits(reordered[i].key.value)
    ensures var a, b := KeyBefore(reordered, at), KeyAfter(reordered, at);
      WritesFor(rows, id, reordered, at).None? <==>
        || !Ordered(if a.Some? then a.value else "", b)
        || (a.Some? && EndsInZero(a.value)) || (b.Some? && EndsInZero(b.value))
  {
    KeyExistsIff(KeyBefore(reordered, at), KeyAfter(reordered, at));
  }

  // ---- the order shown ----

  function RowIds(rows: seq<OrderRow>): seq<string> {
    seq(|rows|, i requires 0 <= i < |rows| => rows[i].id)
  }

  /** Keyed rows sort by key, ties by id. */
  ghost predicate RanksByKey(rank: map<string, Rank>, rows: seq<OrderRow>, ws: seq<KeyWrite>) {
    forall i :: 0 <= i < |rows| ==>
      && rows[i].id in rank && KeyAfterWrites(ws, rows[i]).Some?
      && rank[rows[i].id] == ["0", KeyAfterWrites(ws, rows[i]).value, rows[i].id]
  }

  /** Sorting the rows for display after the writes gives exactly the order of `order`. */
  lemma DisplayedAsMoved(order: seq<OrderRow>, ws: seq<KeyWrite>, ids: set<string>, rank: map<string, Rank>)
    requires SortedByKey(order, ws) && RanksByKey(rank, order, ws) && DistinctRows(order)
    requires rank.Keys == ids && forall id :: id in ids <==> id in RowIds(order)
    ensures SortBy(ids, rank) == RowIds(order)
  {
    var a, b := SortBy(ids, rank), RowIds(order);
    forall i, j | 0 <= i < j < |b| ensures Order.Before(rank[b[i]], rank[b[j]]) {
      assert b[i] == order[i].id && b[j] == order[j].id;
    }
    assert Injective(ids, rank) by {
      forall x, y | x in ids && y in ids && rank[x] == rank[y] ensures x == y {
        assert rank[x][2] == rank[y][2];
      }
    }
    SortByAscends(ids, rank);
    AscendingIsUnique(a, b, rank);
  }

  /** A move, end to end: when it succeeds, applying the writes and sorting by key shows the
      rows in the order that taking the row out and putting it back gives. */
  lemma MoveIsCorrect(rows: seq<OrderRow>, from: nat, at: nat, ids: set<string>, rank: map<string, Rank>)
    requires from < |rows| && at < |rows| && DistinctRows(rows)
    requires !AllKeyed(rows) || AscendingKeys(rows)
    requires var reordered := Inserted(Removed(rows, from), at, rows[from]);
      var ws := WritesFor(rows, rows[from].id, reordered, at);
      ws.Some? ==> RanksByKey(rank, reordered, ws.value)
    requires rank.Keys == ids && forall id :: id in ids <==> id in RowIds(Inserted(Removed(rows, from), at, rows[from]))
    ensures var reordered := Inserted(Removed(rows, from), at, rows[from]);
      var ws := WritesFor(rows, rows[from].id, reordered, at);
      && ws.Some?
      && (AllKeyed(rows) ==> |ws.value| == 1)
      && SortBy(ids, rank) == RowIds(reordered)
  {
    var reordered := Inserted(Removed(rows, from), at, rows[from]);
    ReorderedStaysDistinct(rows, from, at);
    if AllKeyed(rows) {
      SingleWriteSorts(rows, from, at);
    } else {
      BackfillSorts(rows, rows[from].id, reordered, at);
    }
    DisplayedAsMoved(reordered, WritesFor(rows, rows[from].id, reordered, at).value, ids, rank);
  }

  /** Which row stands at index `i` after the move. */
  function Origin(i: nat, from: nat, at: nat): nat {
    if i == at then from
    else
      var k: nat := if i < at then i else i - 1;
      if k < from then k else k + 1
  }

  lemma StandsAt(rows: seq<OrderRow>, from: nat, at: nat, i: nat)
    requires from < |rows| && at < |rows| && i < |rows|
    ensures Origin(i, from, at) < |rows|
    ensures Inserted(Removed(rows, from), at, rows[from])[i] == rows[Origin(i, from, at)]
  {
    var others := Removed(rows, from);
    var k := if i < at then i else i - 1;
    if i != at {
      assert others[k] == if k < from then rows[k] else rows[k + 1];
      assert Inserted(others, at, rows[from])[i] == others[k];
    }
  }

  lemma ReorderedStaysDistinct(rows: seq<OrderRow>, from: nat, at: nat)
    requires from < |rows| && at < |rows| && DistinctRows(rows)
    ensures DistinctRows(Inserted(Removed(rows, from), at, rows[from]))
  {
    var reordered := Inserted(Removed(rows, from), at, rows[from]);
    SameLength(rows, from, at);
    hide Inserted, Removed;
    forall i, j | 0 <= i < j < |reordered| ensures reordered[i].id != reordered[j].id {
      StandsAt(rows, from, at, i);
      StandsAt(rows, from, at, j);
      assert Origin(i, from, at) != Origin(j, from, at);
    }
  }

  lemma SameLength(rows: seq<OrderRow>, from: nat, at: nat)
    requires from < |rows| && at < |rows|
    ensures |Inserted(Removed(rows, from), at, rows[from])| == |rows|
  {
  }

  // ---- the browser's version ----

  /** Move `active` to where `over` sits.  No writes when either is missing or they coincide. */
  method ComputeReorderWrites(rows: seq<OrderRow>, active: string, over: string)
    returns (r: MoveResult, ghost from: nat, ghost at: nat)
    requires DistinctRows(rows)
    ensures r == Moved([]) <==> !HasRow(rows, active) || !HasRow(rows, over) || active == over
    ensures r != Moved([]) ==>
      && from < |rows| && at < |rows| && from != at && rows[from].id == active && rows[at].id == over
      && r == (var ws := WritesFor(rows, active, Inserted(Removed(rows, from), at, rows[from]), at);
               if ws.Some? then Moved(ws.value) else Panic)
  {
    from, at := 0, 0;
    var f := FindRow(rows, active);
    var t := FindRow(rows, over);
    if f.None? || t.None? || f == t { return Moved([]), from, at; }
    from, at := f.value, t.value;
    var order := Inserted(Removed(rows, f.value), t.value, rows[f.value]);
    var ws := FindWrites(rows, active, order, t.value);
    r := if ws.Some? then Moved(ws.value) else Panic;
  }

  /** The dragged row takes the place of the one it is dropped on; the others keep their order. */
  lemma DropTakesThePlace(rows: seq<OrderRow>, from: nat, at: nat)
    requires from < |rows| && at < |rows|
    ensures var reordered := Inserted(Removed(rows, from), at, rows[from]);
      && |reordered| == |rows| && reordered[at] == rows[from]
      && reordered[..at] + reordered[at + 1..] == rows[..from] + rows[from + 1..]
  {
    var others := Removed(rows, from);
    var reordered := Inserted(others, at, rows[from]);
    assert reordered[..at] == others[..at] && reordered[at + 1..] == others[at..];
  }
}
