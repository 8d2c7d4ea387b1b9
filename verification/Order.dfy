/** Code-point order on strings, and sorting a finite set by a string rank. */
module Order {

  /** Strict lexicographic order, as Rust and JavaScript compare these strings. */
  predicate Less(a: string, b: string) {
    b != [] && (a == [] || a[0] < b[0] || (a[0] == b[0] && Less(a[1..], b[1..])))
  }

  lemma LessIsStrictTotal(a: string, b: string)
    ensures !(Less(a, b) && Less(b, a))
    ensures a == b <==> !Less(a, b) && !Less(b, a)
  {
    if a != [] && b != [] && a[0] == b[0] {
      LessIsStrictTotal(a[1..], b[1..]);
      assert a == [a[0]] + a[1..] && b == [b[0]] + b[1..];
    }
  }

  lemma LessTransitive(a: string, b: string, c: string)
    requires Less(a, b) && Less(b, c)
    ensures Less(a, c)
  {
    if a != [] && a[0] == b[0] && b[0] == c[0] {
      LessTransitive(a[1..], b[1..], c[1..]);
    }
  }

  /** A common prefix does not affect the order. */
  lemma {:induction false} LessUnderPrefix(p: string, a: string, b: string)
    ensures Less(p + a, p + b) <==> Less(a, b)
  {
    if p == [] {
      assert p + a == a && p + b == b;
    } else {
      LessUnderPrefix(p[1..], a, b);
      assert (p + a)[1..] == p[1..] + a && (p + b)[1..] == p[1..] + b;
    }
  }

  lemma GreatestExists(s: set<string>)
    requires s != {}
    ensures exists r :: r in s && forall x :: x in s ==> x == r || Less(x, r)
  {
    var a :| a in s;
    var rest := s - {a};
    if rest == {} {
      assert s == {a};
    } else {
      GreatestExists(rest);
      var b :| b in rest && forall x :: x in rest ==> x == b || Less(x, b);
      LessIsStrictTotal(a, b);
      var top := if Less(a, b) then b else a;
      forall x | x in s ensures x == top || Less(x, top) {
        if x in rest && top == a && x != b {
          LessTransitive(x, b, a);
        }
      }
    }
  }

  /** The last string of a set. */
  function Greatest(s: set<string>): (r: string)
    requires s != {}
    ensures r in s && forall x :: x in s ==> x == r || Less(x, r)
  {
    GreatestExists(s);
    assert forall a, b :: !(Less(a, b) && Less(b, a)) by {
      forall a, b ensures !(Less(a, b) && Less(b, a)) { LessIsStrictTotal(a, b); }
    }
    var r :| r in s && forall x :: x in s ==> x == r || Less(x, r);
    r
  }

  /** A sort key: a list of strings compared component by component. */
  type Rank = seq<string>

  predicate Before(a: Rank, b: Rank) {
    b != [] && (a == [] || Less(a[0], b[0]) || (a[0] == b[0] && Before(a[1..], b[1..])))
  }

  lemma BeforeIsStrictTotal(a: Rank, b: Rank)
    ensures !(Before(a, b) && Before(b, a))
    ensures a == b <==> !Before(a, b) && !Before(b, a)
  {
    if a != [] && b != [] {
      LessIsStrictTotal(a[0], b[0]);
      if a[0] == b[0] {
        BeforeIsStrictTotal(a[1..], b[1..]);
        assert a == [a[0]] + a[1..] && b == [b[0]] + b[1..];
      }
    }
  }

  lemma BeforeTransitive(a: Rank, b: Rank, c: Rank)
    requires Before(a, b) && Before(b, c)
    ensures Before(a, c)
  {
    if a != [] {
      LessIsStrictTotal(a[0], b[0]);
      LessIsStrictTotal(b[0], c[0]);
      if a[0] == b[0] == c[0] {
        BeforeTransitive(a[1..], b[1..], c[1..]);
      } else if Less(a[0], b[0]) && Less(b[0], c[0]) {
        LessTransitive(a[0], b[0], c[0]);
      }
    }
  }

  ghost predicate IsLeast<T(!new)>(s: set<T>, rank: map<T, Rank>, x: T)
    requires s <= rank.Keys
  {
    x in s && forall y :: y in s ==> !Before(rank[y], rank[x])
  }

  lemma LeastExists<T(!new)>(s: set<T>, rank: map<T, Rank>)
    requires s != {} && s <= rank.Keys
    ensures exists x :: IsLeast(s, rank, x)
  {
    var a :| a in s;
    var rest := s - {a};
    if rest == {} {
      assert s == {a};
      BeforeIsStrictTotal(rank[a], rank[a]);
      assert IsLeast(s, rank, a);
    } else {
      LeastExists(rest, rank);
      var b :| IsLeast(rest, rank, b);
      BeforeIsStrictTotal(rank[a], rank[b]);
      var least := if Before(rank[a], rank[b]) then a else b;
      forall y | y in s ensures !Before(rank[y], rank[least]) {
        BeforeIsStrictTotal(rank[y], rank[least]);
        if y in rest && least == a && Before(rank[y], rank[a]) {
          BeforeTransitive(rank[y], rank[a], rank[b]);
        }
      }
      assert IsLeast(s, rank, least);
    }
  }

  /** The elements of `s` in rank order. */
  ghost function SortBy<T(!new)>(s: set<T>, rank: map<T, Rank>): (r: seq<T>)
    requires s <= rank.Keys
    ensures forall x :: x in r <==> x in s
    ensures |r| == |s|
    decreases |s|
  {
    if s == {} then []
    else
      LeastExists(s, rank);
      var x :| IsLeast(s, rank, x);
      [x] + SortBy(s - {x}, rank)
  }

  ghost predicate Ascending<T>(r: seq<T>, rank: map<T, Rank>)
    requires forall x :: x in r ==> x in rank
  {
    forall i, j :: 0 <= i < j < |r| ==> Before(rank[r[i]], rank[r[j]])
  }

  ghost predicate Injective<T(!new)>(s: set<T>, rank: map<T, Rank>)
    requires s <= rank.Keys
  {
    forall x, y :: x in s && y in s && rank[x] == rank[y] ==> x == y
  }

  lemma {:induction false} SortByAscends<T(!new)>(s: set<T>, rank: map<T, Rank>)
    requires s <= rank.Keys && Injective(s, rank)
    ensures Ascending(SortBy(s, rank), rank)
    decreases |s|
  {
    if s != {} {
      var r := SortBy(s, rank);
      SortByAscends(s - {r[0]}, rank);
      LeastExists(s, rank);
      forall i, j | 0 <= i < j < |r| ensures Before(rank[r[i]], rank[r[j]]) {
        if i == 0 {
          assert r[1..][j - 1] == r[j];
          assert r[j] in s - {r[0]};
          BeforeIsStrictTotal(rank[r[0]], rank[r[j]]);
        } else {
          assert r[i] == r[1..][i - 1] && r[j] == r[1..][j - 1];
        }
      }
    }
  }

  /** Sorting has one answer: an ascending list is determined by its elements. */
  lemma {:induction false} AscendingIsUnique<T(!new)>(a: seq<T>, b: seq<T>, rank: map<T, Rank>)
    requires forall x :: x in a <==> x in b
    requires forall x :: x in a ==> x in rank
    requires Ascending(a, rank) && Ascending(b, rank)
    ensures a == b
  {
    forall x, y | x in rank && y in rank ensures !(Before(rank[x], rank[y]) && Before(rank[y], rank[x])) {
      BeforeIsStrictTotal(rank[x], rank[y]);
    }
    assert a != [] ==> a[0] in b;
    assert b != [] ==> b[0] in a;
    if a != [] {
      var i :| 0 <= i < |b| && b[i] == a[0];
      var j :| 0 <= j < |a| && a[j] == b[0];
      assert i == 0;
      forall x ensures x in a[1..] <==> x in b[1..] {
        assert x in a <==> x == a[0] || x in a[1..];
        assert x in b <==> x == b[0] || x in b[1..];
      }
      AscendingIsUnique(a[1..], b[1..], rank);
      assert a == [a[0]] + a[1..] && b == [b[0]] + b[1..];
    }
  }
}
