/** Keys for manual ordering: base-62 fractions, one of which always fits between two others. */
module FractionalIndex {
  import opened Cells
  import opened Order

  // `None` as a result stands for a panic.

  const BASE: nat := 62

  /** The digits in ascending order: 0-9, A-Z, a-z. */
  function Digit(i: nat): char
    requires i < BASE
  {
    if i < 10 then (48 + i) as char else if i < 36 then (55 + i) as char else (61 + i) as char
  }

  function DigitIndex(c: char): Option<nat> {
    if '0' <= c <= '9' then Some(c as int - 48)
    else if 'A' <= c <= 'Z' then Some(c as int - 55)
    else if 'a' <= c <= 'z' then Some(c as int - 61)
    else None
  }

  lemma DigitsAscend(i: nat, c: char)
    requires i < BASE
    ensures DigitIndex(Digit(i)) == Some(i)
    ensures DigitIndex(c).Some? ==> DigitIndex(c).value < BASE && Digit(DigitIndex(c).value) == c
    ensures DigitIndex(c).Some? ==> (c < Digit(i) <==> DigitIndex(c).value < i)
  {
  }

  predicate EndsInZero(s: string) {
    s != "" && s[|s| - 1] == '0'
  }

  predicate IsDigits(s: string) {
    forall i :: 0 <= i < |s| ==> DigitIndex(s[i]).Some?
  }

  /** A well-formed bound: base-62 without a trailing zero. */
  predicate IsKey(s: string) {
    IsDigits(s) && !EndsInZero(s)
  }

  /** Digits of `b` shared with `a`, which counts as padded with zeros. */
  function Shared(a: string, b: string): (n: nat)
    ensures n <= |b|
  {
    if b != "" && (if a == "" then '0' else a[0]) == b[0]
    then 1 + Shared(if a == "" then "" else a[1..], b[1..]) else 0
  }

  function From(a: string, n: nat): string {
    if n < |a| then a[n..] else ""
  }

  /** A string strictly between `a` and `b`; without `b` there is no upper bound. */
  function Midpoint(a: string, b: Option<string>): Option<string>
    decreases |a| + (if b.Some? then |b.value| + 1 else 0)
  {
    if b.Some? && !Less(a, b.value) then None
    else if EndsInZero(a) || (b.Some? && EndsInZero(b.value)) then None
    else
      var n := if b.Some? then Shared(a, b.value) else 0;
      if n > 0 then
        var rest := Midpoint(From(a, n), Some(b.value[n..]));
        if rest.Some? then Some(b.value[..n] + rest.value) else None
      else
        var da := if a == "" then Some(0) else DigitIndex(a[0]);
        var db := if b.Some? then DigitIndex(b.value[0]) else Some(BASE);
        if da.None? || db.None? || db.value < da.value then None
        else if db.value - da.value > 1 then Some([Digit((da.value + db.value + 1) / 2)])
        else if b.Some? && |b.value| > 1 then Some([b.value[0]])
        else if a == "" && b.None? then None
        else
          var rest := Midpoint(From(a, 1), None);
          if rest.Some? then Some([Digit(da.value)] + rest.value) else None
  }

  function GenerateKeyBetween(a: Option<string>, b: Option<string>): Option<string> {
    if a.Some? && b.Some? && !Less(a.value, b.value) then None
    else Midpoint(if a.Some? then a.value else "", b)
  }

  // ---- what a midpoint is ----

  lemma {:induction false} SharedPrefix(a: string, b: string)
    ensures var n := Shared(a, b);
      && (forall i :: 0 <= i < n ==> b[i] == if i < |a| then a[i] else '0')
      && (n < |b| ==> b[n] != if n < |a| then a[n] else '0')
  {
    if b != "" && (if a == "" then '0' else a[0]) == b[0] {
      SharedPrefix(if a == "" then "" else a[1..], b[1..]);
    }
  }

  lemma {:induction false} LessThanExtension(a: string, x: string)
    requires x != ""
    ensures Less(a, a + x)
  {
    if a == "" {
      assert a + x == x;
    } else {
      LessThanExtension(a[1..], x);
      assert (a + x)[1..] == a[1..] + x;
    }
  }

  lemma NotLessThanPrefix(a: string, n: nat)
    requires n <= |a|
    ensures !Less(a, a[..n])
  {
    if n < |a| {
      assert a == a[..n] + a[n..];
      LessThanExtension(a[..n], a[n..]);
      LessIsStrictTotal(a, a[..n]);
    } else {
      assert a[..n] == a;
      LessIsStrictTotal(a, a);
    }
  }

  /** Two bounds differ within the upper one, even with the lower one padded by zeros. */
  lemma SharedIsProper(a: string, b: string)
    requires Less(a, b) && !EndsInZero(b)
    ensures Shared(a, b) < |b|
  {
    var n := Shared(a, b);
    SharedPrefix(a, b);
    if n == |b| {
      if n <= |a| {
        assert a[..n] == b;
        NotLessThanPrefix(a, n);
      }
    }
  }

  lemma SuffixIsKey(a: string, n: nat)
    requires IsKey(a)
    ensures IsKey(From(a, n))
  {
    if n < |a| {
      forall i | 0 <= i < |a| - n ensures From(a, n)[i] == a[n + i] {}
    }
  }

  lemma SamePrefix(a: string, b: string, n: nat)
    requires n <= |a| && n <= |b| && forall i :: 0 <= i < n ==> b[i] == a[i]
    ensures a == b[..n] + From(a, n) && b == b[..n] + b[n..]
  {
    assert a[..n] == b[..n] && a == a[..n] + a[n..];
  }

  /** What stripping the shared digits leaves: bounds again. */
  lemma Stripped(a: string, b: string)
    requires Less(a, b) && IsKey(a) && IsKey(b)
    ensures var n := Shared(a, b);
      n < |b| && IsKey(From(a, n)) && IsKey(b[n..]) && Less(From(a, n), b[n..])
  {
    var n := Shared(a, b);
    SharedIsProper(a, b);
    SharedPrefix(a, b);
    SuffixIsKey(a, n);
    SuffixIsKey(b, n);
    if n <= |a| {
      SamePrefix(a, b, n);
      LessUnderPrefix(b[..n], From(a, n), b[n..]);
    }
  }

  /** And how to put the digits back. */
  lemma PutBack(a: string, b: string, n: nat, r: string)
    requires n <= |b| && r != "" && n == Shared(a, b)
    requires Less(From(a, n), r) && Less(r, b[n..])
    ensures Less(a, b[..n] + r) && Less(b[..n] + r, b)
  {
    SharedPrefix(a, b);
    if n <= |a| {
      SamePrefix(a, b, n);
      LessUnderPrefix(b[..n], From(a, n), r);
      LessUnderPrefix(b[..n], r, b[n..]);
    } else {
      PaddedPrefix(a, b, n, r);
    }
  }

  lemma PaddedPrefix(a: string, b: string, n: nat, r: string)
    requires |a| < n <= |b| && r != "" && Less(r, b[n..]) && forall i :: 0 <= i < |a| ==> b[i] == a[i]
    ensures Less(a, b[..n] + r) && Less(b[..n] + r, b)
  {
    assert b == b[..n] + b[n..];
    LessUnderPrefix(b[..n], r, b[n..]);
    assert b[..n] + r == a + (b[|a|..n] + r);
    LessThanExtension(a, b[|a|..n] + r);
  }

  ghost predicate Between(a: string, r: string, b: Option<string>) {
    Less(a, r) && (b.Some? ==> Less(r, b.value))
  }

  ghost predicate Ordered(a: string, b: Option<string>) {
    b.Some? ==> Less(a, b.value)
  }

  function Longer(a: string, b: Option<string>): nat {
    if b.Some? && |b.value| > |a| then |b.value| else |a|
  }

  lemma FirstDigits(a: string, b: Option<string>)
    requires IsKey(a) && (b.Some? ==> IsKey(b.value) && Shared(a, b.value) == 0) && Ordered(a, b)
    ensures a != "" ==> DigitIndex(a[0]).Some?
    ensures b.Some? ==> b.value != "" && DigitIndex(b.value[0]).Some?
    ensures b.Some? ==> (if a == "" then 0 else DigitIndex(a[0]).value) < DigitIndex(b.value[0]).value
  {
    if b.Some? {
      SharedPrefix(a, b.value);
      DigitsAscend(DigitIndex(b.value[0]).value, if a == "" then '0' else a[0]);
    }
  }

  /** For any two keys in order there is a midpoint: strictly between them, itself a key, and
      at most one digit longer than the longer of the two. */
  lemma {:induction false} MidpointIsBetween(a: string, b: Option<string>)
    requires IsKey(a) && (b.Some? ==> IsKey(b.value)) && Ordered(a, b)
    ensures Midpoint(a, b).Some?
    ensures var r := Midpoint(a, b).value;
      Between(a, r, b) && IsKey(r) && 0 < |r| <= Longer(a, b) + 1
    decreases |a| + (if b.Some? then |b.value| + 1 else 0)
  {
    var n := if b.Some? then Shared(a, b.value) else 0;
    if n > 0 {
      Stripped(a, b.value);
      var rest := Midpoint(From(a, n), Some(b.value[n..]));
      MidpointIsBetween(From(a, n), Some(b.value[n..]));
      PutBack(a, b.value, n, rest.value);
    } else {
      FirstDigits(a, b);
      MidpointOfDifferentDigits(a, b);
    }
  }

  lemma MidpointOfDifferentDigits(a: string, b: Option<string>)
    requires IsKey(a) && (b.Some? ==> IsKey(b.value) && Shared(a, b.value) == 0) && Ordered(a, b)
    requires a != "" ==> DigitIndex(a[0]).Some?
    requires b.Some? ==> b.value != "" && DigitIndex(b.value[0]).Some?
    requires b.Some? ==> (if a == "" then 0 else DigitIndex(a[0]).value) < DigitIndex(b.value[0]).value
    ensures Midpoint(a, b).Some?
    ensures var r := Midpoint(a, b).value;
      Between(a, r, b) && IsKey(r) && 0 < |r| <= Longer(a, b) + 1
    decreases |a| + (if b.Some? then |b.value| + 1 else 0), 0
  {
    hide Less, IsDigits, DigitIndex, Digit;
    var da := if a == "" then 0 else DigitIndex(a[0]).value;
    var db := if b.Some? then DigitIndex(b.value[0]).value else BASE;
    SuffixIsKey(a, 1);
    if b.Some? { DigitsAscend(0, b.value[0]); }
    DigitsAscend(0, if a == "" then '0' else a[0]);
    if db - da > 1 {
      OneDigit(a, b, da, db, (da + db + 1) / 2);
    } else if b.Some? && |b.value| > 1 {
      FirstDigitOfUpper(a, b.value, da, db);
    } else {
      MidpointIsBetween(From(a, 1), None);
      LeadingDigit(a, b, da, db, Midpoint(From(a, 1), None).value);
    }
  }

  lemma OneDigit(a: string, b: Option<string>, da: nat, db: nat, mid: nat)
    requires da < mid < db <= BASE && (a == "" || DigitIndex(a[0]) == Some(da))
    requires b.Some? ==> b.value != "" && DigitIndex(b.value[0]) == Some(db)
    ensures Between(a, [Digit(mid)], b) && IsKey([Digit(mid)])
  {
    DigitsAscend(mid, if a == "" then '0' else a[0]);
    if b.Some? { DigitsAscend(mid, b.value[0]); }
  }

  lemma FirstDigitOfUpper(a: string, b: string, da: nat, db: nat)
    requires |b| > 1 && DigitIndex(b[0]) == Some(db) && da < db < BASE && (a == "" || DigitIndex(a[0]) == Some(da))
    ensures Between(a, [b[0]], Some(b)) && IsKey([b[0]])
  {
    DigitsAscend(db, if a == "" then '0' else a[0]);
    DigitsAscend(0, b[0]);
    assert b == [b[0]] + b[1..];
    LessThanExtension([b[0]], b[1..]);
  }

  lemma LeadingDigit(a: string, b: Option<string>, da: nat, db: nat, r: string)
    requires IsKey(a) && da + 1 == db <= BASE && da == if a == "" then 0 else DigitIndex(a[0]).value
    requires b.Some? ==> b.value != "" && DigitIndex(b.value[0]) == Some(db)
    requires IsKey(r) && r != "" && Less(From(a, 1), r)
    ensures Between(a, [Digit(da)] + r, b) && IsKey([Digit(da)] + r)
  {
    var x := [Digit(da)] + r;
    DigitsAscend(da, if a == "" then '0' else a[0]);
    assert x[1..] == r;
    if a != "" { assert From(a, 1) == a[1..]; }
    if b.Some? { DigitsAscend(da, b.value[0]); }
  }

  /** Between digit strings there is a key exactly if they are in order and neither ends in a
      zero; otherwise the call panics. */
  lemma KeyExistsIff(a: Option<string>, b: Option<string>)
    requires (a.Some? ==> IsDigits(a.value)) && (b.Some? ==> IsDigits(b.value))
    ensures GenerateKeyBetween(a, b).Some? <==>
      && Ordered(if a.Some? then a.value else "", b)
      && (a.Some? ==> !EndsInZero(a.value)) && (b.Some? ==> !EndsInZero(b.value))
  {
    var low := if a.Some? then a.value else "";
    if Ordered(low, b) && IsKey(low) && (b.Some? ==> IsKey(b.value)) {
      MidpointIsBetween(low, b);
    }
  }

  // ---- no shorter key would do ----

  lemma KeyTail(s: string, n: nat)
    requires IsKey(s) && n < |s|
    ensures IsKey(s[n..])
  {
    SuffixIsKey(s, n);
  }

  /** What compares with a text the way the text compares with itself begins like it. */
  lemma {:induction false} PinnedStart(a: string, s: string, b: string, n: nat)
    requires n <= |b| && n <= Shared(a, b) && Less(a, s) && Less(s, b) && IsKey(s)
    ensures n < |s| && s[..n] == b[..n] && Less(From(a, n), s[n..]) && Less(s[n..], b[n..])
    decreases n
  {
    hide Less, IsKey;
    if n == 0 {
      LessThanNothing(s);
      assert s[0..] == s && b[0..] == b && From(a, 0) == a;
    } else {
      var tail := if a == "" then "" else a[1..];
      PinnedTail(a, s, b);
      KeyTail(s, 1);
      PinnedStart(tail, s[1..], b[1..], n - 1);
      assert s[1..][n - 1..] == s[n..] && b[1..][n - 1..] == b[n..] && From(tail, n - 1) == From(a, n);
      assert s[..n] == [s[0]] + s[1..][..n - 1] && b[..n] == [b[0]] + b[1..][..n - 1];
    }
  }

  lemma LessThanNothing(s: string)
    ensures forall a :: Less(a, s) ==> s != ""
  {
  }

  lemma PinnedTail(a: string, s: string, b: string)
    requires b != "" && (if a == "" then '0' else a[0]) == b[0] && Less(a, s) && Less(s, b) && IsKey(s)
    ensures |s| > 1 && s[0] == b[0] && Less(if a == "" then "" else a[1..], s[1..]) && Less(s[1..], b[1..])
  {
    DigitsAscend(0, s[0]);
    if a == "" { assert s[0] == '0' ==> |s| > 1; }
  }

  /** Of all keys between the bounds the midpoint is a shortest. */
  lemma {:induction false} MidpointIsShortest(a: string, b: Option<string>, s: string)
    requires IsKey(a) && (b.Some? ==> IsKey(b.value)) && IsKey(s) && Between(a, s, b)
    ensures Midpoint(a, b).Some? && |Midpoint(a, b).value| <= |s|
    decreases |a| + (if b.Some? then |b.value| + 1 else 0)
  {
    if b.Some? { LessTransitive(a, s, b.value); }
    MidpointIsBetween(a, b);
    var n := if b.Some? then Shared(a, b.value) else 0;
    if n > 0 {
      Stripped(a, b.value);
      PinnedStart(a, s, b.value, n);
      KeyTail(s, n);
      MidpointIsShortest(From(a, n), Some(b.value[n..]), s[n..]);
    } else {
      FirstDigits(a, b);
      ShortestOfDifferentDigits(a, b, s);
    }
  }

  lemma ShortestOfDifferentDigits(a: string, b: Option<string>, s: string)
    requires IsKey(a) && (b.Some? ==> IsKey(b.value) && Shared(a, b.value) == 0) && IsKey(s) && Between(a, s, b)
    requires a != "" ==> DigitIndex(a[0]).Some?
    requires b.Some? ==> b.value != "" && DigitIndex(b.value[0]).Some?
    requires b.Some? ==> (if a == "" then 0 else DigitIndex(a[0]).value) < DigitIndex(b.value[0]).value
    requires Midpoint(a, b).Some?
    ensures |Midpoint(a, b).value| <= |s|
    decreases |a| + (if b.Some? then |b.value| + 1 else 0), 0
  {
    var da := if a == "" then 0 else DigitIndex(a[0]).value;
    var db := if b.Some? then DigitIndex(b.value[0]).value else BASE;
    assert s != "";
    if db - da <= 1 && (b.None? || |b.value| == 1) {
      SameFirstDigit(a, b, s, da);
      SuffixIsKey(a, 1);
      KeyTail(s, 1);
      MidpointIsShortest(From(a, 1), None, s[1..]);
    }
  }

  /** With adjacent digits the key must begin with the lower one. */
  lemma SameFirstDigit(a: string, b: Option<string>, s: string, da: nat)
    requires IsKey(s) && Between(a, s, b) && (a != "" ==> DigitIndex(a[0]) == Some(da)) && (a == "" ==> da == 0)
    requires if b.Some? then |b.value| == 1 && DigitIndex(b.value[0]) == Some(da + 1) else da == BASE - 1
    ensures |s| > 1 && Less(From(a, 1), s[1..])
  {
    var low := if a == "" then '0' else a[0];
    assert s != "" && DigitIndex(s[0]).Some? && DigitIndex(low) == Some(da);
    var x := DigitIndex(s[0]).value;
    DigitsAscend(x, low);
    DigitsAscend(0, s[0]);
    if b.Some? {
      DigitsAscend(da + 1, s[0]);
      DigitsAscend(0, b.value[0]);
      assert b.value[1..] == "" && !Less(s[1..], "") && Less(s, b.value);
      assert s[0] < b.value[0] == Digit(da + 1);
    }
    DigitsAscend(da, s[0]);
    DigitsAscend(da, low);
    assert !(s[0] < low) && s[0] == low;
    if a != "" { assert Less(a[1..], s[1..]); }
  }

  // ---- the loops ----

  lemma {:induction false} SharedFrom(a: string, b: string, n: nat)
    requires n <= |b| && n <= Shared(a, b)
    ensures Shared(a, b) == n + Shared(From(a, n), b[n..])
  {
    if n > 0 {
      SharedFrom(if a == "" then "" else a[1..], b[1..], n - 1);
      assert b[1..][n - 1..] == b[n..];
      assert From(if a == "" then "" else a[1..], n - 1) == From(a, n);
    } else {
      assert b[0..] == b && From(a, 0) == a;
    }
  }

  method CountShared(a: string, b: string) returns (n: nat)
    ensures n == Shared(a, b)
  {
    n := 0;
    SharedFrom(a, b, 0);
    while n < |b| && (if n < |a| then a[n] else '0') == b[n]
      invariant n <= |b| && Shared(a, b) == n + Shared(From(a, n), b[n..])
    {
      n := n + 1;
      SharedFrom(a, b, n);
    }
  }

  method FindMidpoint(a: string, b: Option<string>) returns (r: Option<string>)
    ensures r == Midpoint(a, b)
    decreases |a| + (if b.Some? then |b.value| + 1 else 0)
  {
    if b.Some? && !Less(a, b.value) { return None; }
    if EndsInZero(a) || (b.Some? && EndsInZero(b.value)) { return None; }
    if b.Some? {
      var n := CountShared(a, b.value);
      if n > 0 {
        var rest := FindMidpoint(From(a, n), Some(b.value[n..]));
        return if rest.Some? then Some(b.value[..n] + rest.value) else None;
      }
    }
    var da := if a == "" then Some(0) else DigitIndex(a[0]);
    var db := if b.Some? then DigitIndex(b.value[0]) else Some(BASE);
    if da.None? || db.None? || db.value < da.value { return None; }
    if db.value - da.value > 1 { return Some([Digit((da.value + db.value + 1) / 2)]); }
    if b.Some? && |b.value| > 1 { return Some([b.value[0]]); }
    if a == "" && b.None? { return None; }
    var rest := FindMidpoint(From(a, 1), None);
    r := if rest.Some? then Some([Digit(da.value)] + rest.value) else None;
  }

  // ---- many keys at once ----

  /** Strictly ascending keys within the bounds. */
  ghost predicate KeysWithin(keys: seq<string>, a: Option<string>, b: Option<string>) {
    && (forall i :: 0 <= i < |keys| ==> IsKey(keys[i]) && keys[i] != "")
    && (forall i, j :: 0 <= i < j < |keys| ==> Less(keys[i], keys[j]))
    && (forall i :: 0 <= i < |keys| ==> Above(keys[i], a) && Below(keys[i], b))
  }

  ghost predicate Above(k: string, a: Option<string>) {
    a.Some? ==> Less(a.value, k)
  }

  ghost predicate Below(k: string, b: Option<string>) {
    b.Some? ==> Less(k, b.value)
  }

  ghost predicate GoodBounds(a: Option<string>, b: Option<string>) {
    && (a.Some? ==> IsKey(a.value)) && (b.Some? ==> IsKey(b.value))
    && Ordered(if a.Some? then a.value else "", b)
  }

  lemma BetweenBounds(a: Option<string>, b: Option<string>) returns (c: string)
    requires GoodBounds(a, b)
    ensures GenerateKeyBetween(a, b) == Some(c) && IsKey(c) && c != "" && Above(c, a) && Below(c, b)
    ensures GoodBounds(a, Some(c)) && GoodBounds(Some(c), b)
  {
    var low := if a.Some? then a.value else "";
    MidpointIsBetween(low, b);
    c := Midpoint(low, b).value;
  }

  lemma AppendAbove(keys: seq<string>, a: Option<string>, b: Option<string>, c: string)
    requires KeysWithin(keys, a, b) && IsKey(c) && c != "" && Above(c, a) && Below(c, b)
    requires keys != [] ==> Less(keys[|keys| - 1], c)
    ensures KeysWithin(keys + [c], a, b)
  {
    var more := keys + [c];
    forall i, j | 0 <= i < j < |more| ensures Less(more[i], more[j]) {
      if j == |keys| && i < |keys| - 1 {
        LessTransitive(keys[i], keys[|keys| - 1], c);
      }
    }
  }

  lemma PrependBelow(keys: seq<string>, b: Option<string>, c: string)
    requires KeysWithin(keys, None, b) && IsKey(c) && c != "" && Below(c, b)
    requires keys != [] ==> Less(c, keys[0])
    ensures KeysWithin([c] + keys, None, b)
  {
    forall i | 0 <= i < |keys| ensures Less(c, keys[i]) {
      if i > 0 { LessTransitive(c, keys[0], keys[i]); }
    }
  }

  lemma JoinAround(lower: seq<string>, c: string, upper: seq<string>, a: Option<string>, b: Option<string>)
    requires KeysWithin(lower, a, Some(c)) && KeysWithin(upper, Some(c), b)
    requires IsKey(c) && c != "" && Above(c, a) && Below(c, b)
    ensures KeysWithin(lower + [c] + upper, a, b)
  {
    var all := lower + [c] + upper;
    forall i | 0 <= i < |all| ensures Above(all[i], a) && Below(all[i], b) {
      if i < |lower| {
        if b.Some? { LessTransitive(lower[i], c, b.value); }
      } else if i > |lower| {
        if a.Some? { LessTransitive(a.value, c, all[i]); }
      }
    }
    forall i, j | 0 <= i < j < |all| ensures Less(all[i], all[j]) {
      if i < |lower| < j {
        LessTransitive(lower[i], c, all[j]);
      }
    }
  }

  /** The keys in turn, each generated past the last; `None` if a call panics. */
  function Appended(a: Option<string>, n: nat): Option<seq<string>> {
    if n == 0 then Some([])
    else
      var init := Appended(a, n - 1);
      if init.None? then None
      else
        var last := if init.value == [] then a else Some(init.value[|init.value| - 1]);
        var k := GenerateKeyBetween(last, None);
        if k.Some? then Some(init.value + [k.value]) else None
  }

  /** The keys in reverse order of generation, each generated before the last. */
  function Prepended(b: Option<string>, n: nat): Option<seq<string>> {
    if n == 0 then Some([])
    else
      var init := Prepended(b, n - 1);
      if init.None? then None
      else
        var k := GenerateKeyBetween(None, if init.value == [] then b else Some(init.value[0]));
        if k.Some? then Some([k.value] + init.value) else None
  }

  function NextAppended(a: Option<string>, keys: seq<string>): Option<string> {
    GenerateKeyBetween(if keys == [] then a else Some(keys[|keys| - 1]), None)
  }

  function NextPrepended(b: Option<string>, keys: seq<string>): Option<string> {
    GenerateKeyBetween(None, if keys == [] then b else Some(keys[0]))
  }

  lemma AppendedStep(a: Option<string>, n: nat, keys: seq<string>)
    requires Appended(a, n) == Some(keys)
    ensures var k := NextAppended(a, keys);
      Appended(a, n + 1) == if k.Some? then Some(keys + [k.value]) else None
  {
  }

  lemma PrependedStep(b: Option<string>, n: nat, keys: seq<string>)
    requires Prepended(b, n) == Some(keys)
    ensures var k := NextPrepended(b, keys);
      Prepended(b, n + 1) == if k.Some? then Some([k.value] + keys) else None
  {
  }

  function Divided(a: string, b: string, n: nat): Option<seq<string>>
    decreases n
  {
    if n == 0 then Some([])
    else
      var c := GenerateKeyBetween(Some(a), Some(b));
      if c.None? then None
      else if n == 1 then Some([c.value])
      else
        var lower, upper := Divided(a, c.value, n / 2), Divided(c.value, b, n - n / 2 - 1);
        if lower.Some? && upper.Some? then Some(lower.value + [c.value] + upper.value) else None
  }

  /** `n` keys between two bounds. */
  function GenerateNKeysBetween(a: Option<string>, b: Option<string>, n: nat): Option<seq<string>> {
    if b.None? then Appended(a, n)
    else if a.None? then Prepended(b, n)
    else Divided(a.value, b.value, n)
  }

  lemma OneMoreAppended(a: Option<string>, init: seq<string>)
    requires (a.Some? ==> IsKey(a.value)) && KeysWithin(init, a, None)
    ensures NextAppended(a, init).Some? && KeysWithin(init + [NextAppended(a, init).value], a, None)
  {
    var c := BetweenBounds(if init == [] then a else Some(init[|init| - 1]), None);
    if init != [] && a.Some? { LessTransitive(a.value, init[|init| - 1], c); }
    AppendAbove(init, a, None, c);
  }

  lemma {:induction false} AppendedAreWithin(a: Option<string>, n: nat)
    requires a.Some? ==> IsKey(a.value)
    ensures Appended(a, n).Some? && |Appended(a, n).value| == n && KeysWithin(Appended(a, n).value, a, None)
  {
    if n > 0 {
      AppendedAreWithin(a, n - 1);
      AppendedStep(a, n - 1, Appended(a, n - 1).value);
      OneMoreAppended(a, Appended(a, n - 1).value);
    }
  }

  lemma {:induction false} PrependedAreWithin(b: Option<string>, n: nat)
    requires b.Some? ==> IsKey(b.value) && b.value != ""
    ensures Prepended(b, n).Some? && |Prepended(b, n).value| == n && KeysWithin(Prepended(b, n).value, None, b)
  {
    hide Midpoint, GenerateKeyBetween;
    if n > 0 {
      PrependedAreWithin(b, n - 1);
      var init := Prepended(b, n - 1).value;
      var next := if init == [] then b else Some(init[0]);
      assert GoodBounds(None, next);
      var c := BetweenBounds(None, next);
      if init != [] && b.Some? { LessTransitive(c, init[0], b.value); }
      PrependBelow(init, b, c);
    }
  }

  /** Of `n` keys between two the one in the middle is the key between these, and the others are
      laid out in the same way on both sides of it. */
  lemma DividedInTheMiddle(a: string, b: string, n: nat)
    requires n > 0 && Divided(a, b, n).Some? && |Divided(a, b, n).value| == n
    ensures Some(Divided(a, b, n).value[n / 2]) == GenerateKeyBetween(Some(a), Some(b))
  {
    hide GenerateKeyBetween;
    var c := GenerateKeyBetween(Some(a), Some(b)).value;
    if n > 1 { DividedCount(a, c, n / 2); }
  }

  lemma {:induction false} DividedCount(a: string, b: string, n: nat)
    ensures Divided(a, b, n).Some? ==> |Divided(a, b, n).value| == n
    decreases n
  {
    hide GenerateKeyBetween;
    if n > 1 && Divided(a, b, n).Some? {
      var c := GenerateKeyBetween(Some(a), Some(b)).value;
      DividedCount(a, c, n / 2);
      DividedCount(c, b, n - n / 2 - 1);
    }
  }

  lemma {:induction false} DividedAreWithin(a: string, b: string, n: nat)
    requires GoodBounds(Some(a), Some(b))
    ensures Divided(a, b, n).Some? && |Divided(a, b, n).value| == n
      && KeysWithin(Divided(a, b, n).value, Some(a), Some(b))
    decreases n
  {
    hide Midpoint, GenerateKeyBetween, Less, IsKey;
    if n > 0 {
      var c := BetweenBounds(Some(a), Some(b));
      if n == 1 {
        AppendAbove([], Some(a), Some(b), c);
        assert [] + [c] == [c];
      } else {
        DividedAreWithin(a, c, n / 2);
        DividedAreWithin(c, b, n - n / 2 - 1);
        var lower, upper := Divided(a, c, n / 2), Divided(c, b, n - n / 2 - 1);
        assert Divided(a, b, n) == Some(lower.value + [c] + upper.value);
        JoinAround(lower.value, c, upper.value, Some(a), Some(b));
      }
    }
  }

  /** Between good bounds there are always `n` keys: distinct, ascending and in bounds. */
  lemma NKeysAreWithin(a: Option<string>, b: Option<string>, n: nat)
    requires GoodBounds(a, b)
    ensures GenerateNKeysBetween(a, b, n).Some?
    ensures |GenerateNKeysBetween(a, b, n).value| == n && KeysWithin(GenerateNKeysBetween(a, b, n).value, a, b)
  {
    if b.None? {
      AppendedAreWithin(a, n);
    } else if a.None? {
      PrependedAreWithin(b, n);
    } else {
      DividedAreWithin(a.value, b.value, n);
    }
  }

  /** Keys past `a`, each generated from the last. */
  method FindAppended(a: Option<string>, n: nat) returns (keys: Option<seq<string>>)
    ensures keys == Appended(a, n)
  {
    hide Midpoint, GenerateKeyBetween;
    var out: seq<string> := [];
    for i := 0 to n
      invariant |out| == i && Appended(a, i) == Some(out)
    {
      var k := FindKeyBetween(if i == 0 then a else Some(out[i - 1]), None);
      if k.None? { AppendedStops(a, i + 1, n); return None; }
      out := out + [k.value];
    }
    keys := Some(out);
  }

  /** Keys before `b`, each generated from the last, then turned round. */
  method FindPrepended(b: Option<string>, n: nat) returns (keys: Option<seq<string>>)
    ensures keys == Prepended(b, n)
  {
    var out: seq<string> := [];
    for i := 0 to n
      invariant |out| == i && Prepended(b, i) == Some(Backwards(out))
    {
      if i > 0 { BackwardsFirst(out); }
      var k := FindKeyBetween(None, if i == 0 then b else Some(out[i - 1]));
      if k.None? { PrependedStops(b, i + 1, n); return None; }
      BackwardsSnoc(out, k.value);
      PrependedStep(b, i, Backwards(out));
      out := out + [k.value];
    }
    keys := Some(Backwards(out));
  }

  method FindNKeysBetween(a: Option<string>, b: Option<string>, n: nat) returns (keys: Option<seq<string>>)
    ensures keys == GenerateNKeysBetween(a, b, n)
    decreases n
  {
    if n == 0 { return Some([]); }
    if n == 1 {
      var first := FindKeyBetween(a, b);
      OneKey(a, b);
      return if first.Some? then Some([first.value]) else None;
    }
    if b.None? {
      keys := FindAppended(a, n);
    } else if a.None? {
      keys := FindPrepended(b, n);
    } else {
      var c := FindKeyBetween(a, b);
      if c.None? { return None; }
      var lower := FindNKeysBetween(a, c, n / 2);
      var upper := FindNKeysBetween(c, b, n - n / 2 - 1);
      keys := if lower.Some? && upper.Some? then Some(lower.value + [c.value] + upper.value) else None;
    }
  }

  method FindKeyBetween(a: Option<string>, b: Option<string>) returns (r: Option<string>)
    ensures r == GenerateKeyBetween(a, b)
  {
    if a.Some? && b.Some? && !Less(a.value, b.value) { return None; }
    r := FindMidpoint(if a.Some? then a.value else "", b);
  }

  function Backwards(s: seq<string>): (r: seq<string>)
    ensures |r| == |s|
  {
    if s == [] then [] else [s[|s| - 1]] + Backwards(s[..|s| - 1])
  }

  lemma BackwardsSnoc(s: seq<string>, k: string)
    ensures Backwards(s + [k]) == [k] + Backwards(s)
  {
    assert (s + [k])[..|s|] == s;
  }

  lemma BackwardsFirst(s: seq<string>)
    requires s != []
    ensures Backwards(s)[0] == s[|s| - 1]
  {
  }

  lemma OneKey(a: Option<string>, b: Option<string>)
    ensures var k := GenerateKeyBetween(a, b);
      GenerateNKeysBetween(a, b, 1) == if k.Some? then Some([k.value]) else None
  {
    var k := GenerateKeyBetween(a, b);
    assert Appended(a, 0) == Some([]) && Prepended(b, 0) == Some([]);
    if k.Some? { assert [] + [k.value] == [k.value] == [k.value] + []; }
    if b.None? {
      assert Appended(a, 1) == if k.Some? then Some([] + [k.value]) else None;
    } else if a.None? {
      assert Prepended(b, 1) == if k.Some? then Some([k.value] + []) else None;
    }
  }

  lemma {:induction false} AppendedStops(a: Option<string>, i: nat, n: nat)
    requires i <= n && Appended(a, i).None?
    ensures Appended(a, n).None?
    decreases n
  {
    if i < n { AppendedStops(a, i, n - 1); }
  }

  lemma {:induction false} PrependedStops(b: Option<string>, i: nat, n: nat)
    requires i <= n && Prepended(b, i).None?
    ensures Prepended(b, n).None?
    decreases n
  {
    if i < n { PrependedStops(b, i, n - 1); }
  }

  // ---- how fast keys grow ----

  function Repeat(c: char, q: nat): (s: string)
    ensures |s| == q && forall i :: 0 <= i < q ==> s[i] == c
  {
    if q == 0 then "" else [c] + Repeat(c, q - 1)
  }

  /** Last digits of successive keys past the end, and before the start. */
  function AppendDigit(r: nat): (d: nat)
    ensures 0 < d < BASE
  {
    if r == 0 then 31 else if r == 1 then 47 else if r == 2 then 55 else if r == 3 then 59 else 61
  }

  function PrependDigit(r: nat): (d: nat)
    ensures 0 < d < BASE
  {
    if r == 0 then 31 else if r == 1 then 16 else if r == 2 then 8 else if r == 3 then 4 else if r == 4 then 2 else 1
  }

  /** The key of the `k`-th row ever appended to an empty list. */
  function AppendKey(k: nat): (s: string)
    ensures |s| == k / 5 + 1
  {
    Repeat('z', k / 5) + [Digit(AppendDigit(k % 5))]
  }

  /** The key of the `k`-th row ever put first. */
  function PrependKey(k: nat): (s: string)
    ensures |s| == k / 6 + 1
  {
    Repeat('0', k / 6) + [Digit(PrependDigit(k % 6))]
  }

  lemma MidpointPastZ(s: string)
    requires s != "" && !EndsInZero(s) && Midpoint(s, None).Some?
    ensures Midpoint(['z'] + s, None) == Some(['z'] + Midpoint(s, None).value)
  {
    var a := ['z'] + s;
    assert From(a, 1) == s && a[0] == 'z' && a[|a| - 1] == s[|s| - 1];
    assert Digit(61) == 'z' && DigitIndex('z') == Some(61);
  }

  lemma {:induction false} MidpointPastZs(q: nat, s: string)
    requires s != "" && !EndsInZero(s) && Midpoint(s, None).Some?
    ensures Midpoint(Repeat('z', q) + s, None) == Some(Repeat('z', q) + Midpoint(s, None).value)
  {
    hide Midpoint;
    var m := Midpoint(s, None).value;
    if q == 0 {
      assert Repeat('z', 0) + s == s && Repeat('z', 0) + m == m;
    } else {
      var more := Repeat('z', q - 1) + s;
      MidpointPastZs(q - 1, s);
      assert more[|more| - 1] == s[|s| - 1];
      MidpointPastZ(more);
      assert Repeat('z', q) + s == ['z'] + more && Repeat('z', q) + m == ['z'] + (Repeat('z', q - 1) + m);
    }
  }

  lemma MidpointFromNothing()
    ensures Midpoint("", None) == Some([Digit(31)])
  {
  }

  lemma FirstKey()
    ensures GenerateKeyBetween(None, None) == Some(AppendKey(0)) == Some(PrependKey(0))
  {
    MidpointFromNothing();
    assert Repeat('z', 0) + [Digit(31)] == [Digit(31)] == Repeat('0', 0) + [Digit(31)];
  }

  lemma NextDigitUp(d: nat)
    requires 0 < d < BASE
    ensures Midpoint([Digit(d)], None) ==
      if d < 61 then Some([Digit((d + BASE + 1) / 2)]) else Some([Digit(61), Digit(31)])
  {
    DigitsAscend(d, '0');
    MidpointFromNothing();
    assert From([Digit(d)], 1) == "";
    assert [Digit(61)] + [Digit(31)] == [Digit(61), Digit(31)];
  }

  lemma NextAppendDigit(r: nat)
    requires r < 5
    ensures r < 4 ==> AppendDigit(r) < 61 && (AppendDigit(r) + BASE + 1) / 2 == AppendDigit(r + 1)
    ensures r == 4 ==> AppendDigit(r) == 61
  {
  }

  lemma AppendedAfter(q: nat, r: nat)
    requires r < 5
    ensures Midpoint(Repeat('z', q) + [Digit(AppendDigit(r))], None) ==
      Some(if r < 4 then Repeat('z', q) + [Digit(AppendDigit(r + 1))] else Repeat('z', q + 1) + [Digit(AppendDigit(0))])
  {
    hide Midpoint;
    var d := AppendDigit(r);
    DigitsAscend(d, '0');
    NextDigitUp(d);
    NextAppendDigit(r);
    MidpointPastZs(q, [Digit(d)]);
    assert [Digit(61), Digit(31)] == ['z'] + [Digit(31)];
    if r == 4 { ZsGrow(q, [Digit(31)]); }
  }

  lemma NextAppendKey(k: nat)
    ensures GenerateKeyBetween(Some(AppendKey(k)), None) == Some(AppendKey(k + 1))
  {
    hide Midpoint, Repeat, Digit, Less;
    AppendedAfter(k / 5, k % 5);
    assert if k % 5 < 4 then (k + 1) / 5 == k / 5 && (k + 1) % 5 == k % 5 + 1
           else (k + 1) / 5 == k / 5 + 1 && (k + 1) % 5 == 0;
  }

  lemma {:induction false} ZsGrow(q: nat, s: string)
    ensures Repeat('z', q) + (['z'] + s) == Repeat('z', q + 1) + s
  {
    var a, b := Repeat('z', q) + (['z'] + s), Repeat('z', q + 1) + s;
    forall i | 0 <= i < |a| ensures a[i] == b[i] {}
  }

  /** Appending: from an empty list the `k`-th key has exactly `k / 5 + 1` digits. */
  lemma {:induction false} AppendsGrowSlowly(n: nat)
    ensures GenerateNKeysBetween(None, None, n).Some?
    ensures var keys := GenerateNKeysBetween(None, None, n).value;
      |keys| == n && forall k :: 0 <= k < n ==> keys[k] == AppendKey(k)
  {
    hide Midpoint, GenerateKeyBetween, AppendKey, PrependKey;
    if n > 0 {
      AppendsGrowSlowly(n - 1);
      var init := Appended(None, n - 1).value;
      if n == 1 {
        FirstKey();
      } else {
        NextAppendKey(n - 2);
        assert init[|init| - 1] == AppendKey(n - 2);
      }
    }
  }

  lemma {:induction false} SharedZeros(q: nat, d: string)
    requires d != "" && d[0] != '0'
    ensures Shared("", Repeat('0', q) + d) == q
  {
    var b := Repeat('0', q) + d;
    if q > 0 {
      SharedZeros(q - 1, d);
      assert b[1..] == Repeat('0', q - 1) + d;
    } else {
      assert b == d;
    }
  }

  lemma MidpointBelowZeros(q: nat, d: string)
    requires d != "" && d[0] != '0' && !EndsInZero(d) && Midpoint("", Some(d)).Some?
    ensures Midpoint("", Some(Repeat('0', q) + d)) == Some(Repeat('0', q) + Midpoint("", Some(d)).value)
  {
    var b := Repeat('0', q) + d;
    SharedZeros(q, d);
    assert b[|b| - 1] == d[|d| - 1];
    if q > 0 {
      assert b[q..] == d && b[..q] == Repeat('0', q);
    } else {
      assert b == d && Repeat('0', 0) + Midpoint("", Some(d)).value == Midpoint("", Some(d)).value;
    }
  }

  lemma NextDigitDown(d: nat)
    requires 0 < d < BASE
    ensures Midpoint("", Some([Digit(d)])) == if d > 1 then Some([Digit((d + 1) / 2)]) else Some([Digit(0), Digit(31)])
  {
    DigitsAscend(d, '0');
    DigitsAscend(0, Digit(d));
    MidpointFromNothing();
    assert [Digit(0)] + [Digit(31)] == [Digit(0), Digit(31)];
  }

  lemma NextPrependDigit(r: nat)
    requires r < 6
    ensures r < 5 ==> PrependDigit(r) > 1 && (PrependDigit(r) + 1) / 2 == PrependDigit(r + 1)
    ensures r == 5 ==> PrependDigit(r) == 1
  {
  }

  lemma PrependedBefore(q: nat, r: nat)
    requires r < 6
    ensures Midpoint("", Some(Repeat('0', q) + [Digit(PrependDigit(r))])) ==
      Some(if r < 5 then Repeat('0', q) + [Digit(PrependDigit(r + 1))]
           else Repeat('0', q + 1) + [Digit(PrependDigit(0))])
  {
    hide Midpoint;
    var d := PrependDigit(r);
    DigitsAscend(d, '0');
    NextDigitDown(d);
    NextPrependDigit(r);
    MidpointBelowZeros(q, [Digit(d)]);
    assert [Digit(0), Digit(31)] == ['0'] + [Digit(31)];
    if r == 5 { ZerosGrow(q, [Digit(31)]); }
  }

  lemma NextPrependKey(k: nat)
    ensures GenerateKeyBetween(None, Some(PrependKey(k))) == Some(PrependKey(k + 1))
  {
    hide Midpoint, Repeat, Digit, Less;
    PrependedBefore(k / 6, k % 6);
    assert if k % 6 < 5 then (k + 1) / 6 == k / 6 && (k + 1) % 6 == k % 6 + 1
           else (k + 1) / 6 == k / 6 + 1 && (k + 1) % 6 == 0;
  }

  lemma ZerosGrow(q: nat, s: string)
    ensures Repeat('0', q) + (['0'] + s) == Repeat('0', q + 1) + s
  {
    var a, b := Repeat('0', q) + (['0'] + s), Repeat('0', q + 1) + s;
    forall i | 0 <= i < |a| ensures a[i] == b[i] {}
  }

  /** Prepending: from an empty list the `k`-th key has exactly `k / 6 + 1` digits. */
  lemma {:induction false} PrependsGrowSlowly(n: nat)
    ensures Prepended(None, n).Some?
    ensures var keys := Prepended(None, n).value;
      |keys| == n && forall k :: 0 <= k < n ==> keys[n - 1 - k] == PrependKey(k)
  {
    hide Midpoint, GenerateKeyBetween, AppendKey, PrependKey;
    if n > 0 {
      PrependsGrowSlowly(n - 1);
      var init := Prepended(None, n - 1).value;
      if n == 1 {
        FirstKey();
      } else {
        NextPrependKey(n - 2);
        assert init[0] == PrependKey(n - 2);
      }
    }
  }
}
