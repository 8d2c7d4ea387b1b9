/** Cells that hold several values, written with commas between them. */
module MultiValue {
  import opened Cells

  /** Unicode white space. */
  predicate IsSpace(c: char) {
    var n := c as int;
    9 <= n <= 13 || n == 0x20 || n == 0x85 || n == 0xA0 || n == 0x1680 || 0x2000 <= n <= 0x200A
    || n == 0x2028 || n == 0x2029 || n == 0x202F || n == 0x205F || n == 0x3000
  }

  function TrimStart(s: string): (r: string)
    ensures |r| <= |s|
  {
    if s != "" && IsSpace(s[0]) then TrimStart(s[1..]) else s
  }

  function TrimEnd(s: string): (r: string)
    ensures r <= s
    ensures r != "" ==> !IsSpace(r[|r| - 1])
  {
    if s != "" && IsSpace(s[|s| - 1]) then TrimEnd(s[..|s| - 1]) else s
  }

  function Trim(s: string): string {
    TrimEnd(TrimStart(s))
  }

  predicate IsTrimmed(s: string) {
    s != "" ==> !IsSpace(s[0]) && !IsSpace(s[|s| - 1])
  }

  /** Commas and blanks before the next value. */
  function SkipSeparators(s: string): (r: string)
    ensures |r| <= |s|
  {
    if s != "" && (s[0] == ',' || s[0] == ' ') then SkipSeparators(s[1..]) else s
  }

  function FirstComma(s: string): (i: nat)
    ensures i <= |s|
    ensures forall k :: 0 <= k < i ==> s[k] != ','
    ensures i < |s| ==> s[i] == ','
  {
    if s == "" || s[0] == ',' then 0 else 1 + FirstComma(s[1..])
  }

  /** The pieces between commas, trimmed, without the empty ones. */
  function Naive(s: string): seq<string>
    decreases |s|
  {
    var i := FirstComma(s);
    var piece := Trim(s[..i]);
    (if piece == "" then [] else [piece]) + if i < |s| then Naive(s[i + 1..]) else []
  }

  /** The longest known value at the cursor. */
  function LongestKnown(known: seq<string>, rest: string): (hit: Option<string>)
    ensures hit.Some? ==> hit.value in known && hit.value <= rest
    ensures forall k :: k in known && k <= rest ==> hit.Some? && |k| <= |hit.value|
  {
    if known == [] then None
    else
      var last := known[|known| - 1];
      var hit := LongestKnown(known[..|known| - 1], rest);
      if last <= rest && (hit.None? || |last| > |hit.value|) then Some(last) else hit
  }

  /** One turn of the scan: the value found, if any, and the new cursor. */
  function Turn(rest: string, known: seq<string>): (seq<string>, string)
    requires rest != ""
  {
    var hit := LongestKnown(known, rest);
    if hit.Some? then ([hit.value], SkipSeparators(rest[|hit.value|..]))
    else
      var i := FirstComma(rest);
      if i < |rest| then
        var piece := Trim(rest[..i]);
        (if piece == "" then [] else [piece], TrimStart(rest[i + 1..]))
      else ([Trim(rest)], "")
  }

  /** All turns of the scan.  It never ends if some turn leaves the cursor where it was. */
  function Scan(rest: string, known: seq<string>): Option<seq<string>>
    decreases |rest|
  {
    if rest == "" then Some([])
    else
      var (found, next) := Turn(rest, known);
      if |next| >= |rest| then None
      else
        var more := Scan(next, known);
        if more.None? then None else Some(found + more.value)
  }

  /** The values of a cell: pieces between commas, unless one is unknown, which means that some
      value has a comma of its own; `None` if the scan for it never ends. */
  function Split(text: string, known: seq<string>): Option<seq<string>> {
    var cell := Trim(text);
    if cell == "" then Some([])
    else if known == [] || (forall p :: p in Naive(cell) ==> p in known) then Some(Naive(cell))
    else Scan(cell, known)
  }

  function Join(values: seq<string>): string {
    if values == [] then ""
    else if |values| == 1 then values[0]
    else values[0] + ", " + Join(values[1..])
  }

  method FindLongest(known: seq<string>, rest: string) returns (hit: Option<string>)
    ensures hit == LongestKnown(known, rest)
  {
    hit := None;
    for i := 0 to |known|
      invariant hit == LongestKnown(known[..i], rest)
    {
      assert known[..i + 1][..i] == known[..i];
      if known[i] <= rest && (hit.None? || |known[i]| > |hit.value|) {
        hit := Some(known[i]);
      }
    }
    assert known[..|known|] == known;
  }

  method ScanTurn(rest: string, known: seq<string>) returns (found: seq<string>, next: string)
    requires rest != ""
    ensures (found, next) == Turn(rest, known)
  {
    var hit := FindLongest(known, rest);
    if hit.Some? { return [hit.value], SkipSeparators(rest[|hit.value|..]); }
    var i := FirstComma(rest);
    if i == |rest| { return [Trim(rest)], ""; }
    var piece := Trim(rest[..i]);
    found := if piece == "" then [] else [piece];
    next := TrimStart(rest[i + 1..]);
  }

  /** The loop of the scan, for every call on which it ends. */
  method ScanValues(cell: string, known: seq<string>) returns (out: seq<string>)
    requires Scan(cell, known).Some?
    ensures Scan(cell, known) == Some(out)
  {
    hide Turn;
    out := [];
    var rest := cell;
    assert [] + Scan(cell, known).value == Scan(cell, known).value;
    while rest != ""
      invariant Scan(rest, known).Some? && Scan(cell, known) == Some(out + Scan(rest, known).value)
      decreases |rest|
    {
      var found, next := ScanTurn(rest, known);
      assert out + (found + Scan(next, known).value) == (out + found) + Scan(next, known).value;
      out, rest := out + found, next;
    }
    assert out + [] == out;
  }

  method SplitMulti(text: string, known: seq<string>) returns (values: seq<string>)
    requires Split(text, known).Some?
    ensures Split(text, known) == Some(values)
  {
    var cell := Trim(text);
    if cell == "" { return []; }
    var naive := Naive(cell);
    if known == [] || forall p :: p in naive ==> p in known { return naive; }
    values := ScanValues(cell, known);
  }

  // ---- when the scan ends ----

  /** Nothing but an empty known value is found at the cursor, and no separator follows. */
  ghost predicate Stuck(rest: string, known: seq<string>) {
    rest != "" && "" in known && rest[0] != ',' && rest[0] != ' ' && forall k :: k in known && k != "" ==> !(k <= rest)
  }

  /** A turn leaves the cursor where it was exactly if it is stuck; otherwise it moves on. */
  lemma SticksIff(rest: string, known: seq<string>)
    requires rest != ""
    ensures Turn(rest, known).1 == rest <==> Stuck(rest, known)
    ensures !Stuck(rest, known) ==> |Turn(rest, known).1| < |rest|
  {
    var hit := LongestKnown(known, rest);
    if hit == Some("") {
      assert rest[0..] == rest && forall k :: k in known && k != "" ==> !(k <= rest);
    }
    if Stuck(rest, known) { assert "" <= rest && hit == Some(""); }
  }

  /** The cursor comes to stand at `at` when the scan starts at `rest`. */
  ghost predicate Reaches(rest: string, at: string, known: seq<string>)
    decreases |rest|
  {
    rest == at || (rest != "" && |Turn(rest, known).1| < |rest| && Reaches(Turn(rest, known).1, at, known))
  }

  /** The scan ends exactly if it never comes to a cursor where it is stuck. */
  lemma {:induction false} ScanEndsIff(rest: string, known: seq<string>)
    ensures Scan(rest, known).Some? <==> forall at :: Reaches(rest, at, known) ==> !Stuck(at, known)
    decreases |rest|
  {
    if rest != "" {
      SticksIff(rest, known);
      assert Reaches(rest, rest, known);
      if !Stuck(rest, known) {
        hide Turn, Stuck;
        var next := Turn(rest, known).1;
        ScanEndsIff(next, known);
        forall at ensures Reaches(rest, at, known) <==> at == rest || Reaches(next, at, known) {
        }
      }
    }
  }

  /** Without an empty known value every call ends. */
  lemma AlwaysEndsWithoutEmpty(text: string, known: seq<string>)
    requires "" !in known
    ensures Split(text, known).Some?
  {
    ScanEndsIff(Trim(text), known);
  }

  /** A column whose only known value is the empty one hangs on every cell that has a value. */
  lemma EmptyKnownValueSticks(text: string)
    ensures Split(text, [""]) == None <==> Naive(Trim(text)) != []
  {
    var cell := Trim(text);
    PiecesAreNotEmpty(cell);
    if Naive(cell) != [] {
      assert Naive(cell)[0] in Naive(cell) && Naive(cell)[0] !in [""];
      EmptyKnownSticks(cell);
    }
  }

  lemma {:induction false} PiecesAreNotEmpty(s: string)
    ensures forall p :: p in Naive(s) ==> p != ""
    decreases |s|
  {
    var i := FirstComma(s);
    if i < |s| { PiecesAreNotEmpty(s[i + 1..]); }
  }

  lemma BlankIsTrimmed(s: string, i: nat)
    requires 0 < i <= |s| && s[0] == ' '
    ensures Trim(s[..i]) == Trim(s[1..][..i - 1])
  {
    hide TrimEnd;
    assert s[..i][1..] == s[1..][..i - 1];
  }

  lemma NaiveSkips(s: string)
    requires s != "" && (s[0] == ',' || s[0] == ' ')
    ensures Naive(s) == Naive(s[1..])
  {
    hide Naive, Trim;
    var i, u := FirstComma(s), s[1..];
    NaiveStep(s, i);
    if s[0] == ',' {
      assert s[..0] == "" && Trim("") == "" by { TrimKeeps(""); }
    } else {
      BlankIsTrimmed(s, i);
      NaiveStep(u, i - 1);
      assert i < |s| ==> u[i..] == s[i + 1..];
    }
  }

  lemma {:induction false} SkippedHasThePieces(s: string)
    requires Naive(s) != []
    ensures SkipSeparators(s) != "" && SkipSeparators(s)[0] != ',' && SkipSeparators(s)[0] != ' '
  {
    if s != "" && (s[0] == ',' || s[0] == ' ') {
      NaiveSkips(s);
      hide Naive;
      SkippedHasThePieces(s[1..]);
    }
  }

  lemma EmptyKnownSticks(cell: string)
    requires Naive(cell) != []
    ensures Scan(cell, [""]) == None
  {
    assert [""][..0] == [] && LongestKnown([""], cell) == Some("") && cell[0..] == cell;
    var next := SkipSeparators(cell);
    SkippedHasThePieces(cell);
    if next != cell {
      assert LongestKnown([""], next) == Some("") && next[0..] == next;
      assert Turn(next, [""]).1 == next;
    }
  }

  // ---- the pieces of a list ----

  lemma NaiveStep(text: string, i: nat)
    requires i == FirstComma(text)
    ensures Naive(text) ==
      (if Trim(text[..i]) == "" then [] else [Trim(text[..i])]) + if i < |text| then Naive(text[i + 1..]) else []
  {
  }

  lemma TrimKeeps(s: string)
    requires IsTrimmed(s)
    ensures Trim(s) == s
  {
  }

  lemma {:induction false} FirstCommaBefore(a: string, b: string)
    ensures FirstComma(a + "," + b) == FirstComma(a)
    ensures FirstComma(a) == |a| <==> ',' !in a
  {
    if a == "" {
      assert a + "," + b == "," + b;
    } else if a[0] != ',' {
      FirstCommaBefore(a[1..], b);
      assert (a + "," + b)[1..] == a[1..] + "," + b;
      assert a == [a[0]] + a[1..];
    }
  }

  /** The pieces of two texts with a comma between them are the pieces of each. */
  lemma {:induction false} NaiveJoins(a: string, b: string)
    ensures Naive(a + "," + b) == Naive(a) + Naive(b)
    decreases |a|
  {
    hide Naive, Trim, FirstComma;
    var i, text := FirstComma(a), a + "," + b;
    FirstCommaBefore(a, b);
    NaiveStep(text, i);
    NaiveStep(a, i);
    assert text[..i] == a[..i];
    if i < |a| {
      assert text[i + 1..] == a[i + 1..] + "," + b;
      NaiveJoins(a[i + 1..], b);
    } else {
      assert text[i + 1..] == b;
    }
  }

  lemma TrimIsShorter(s: string)
    ensures |Trim(s)| <= |s|
    ensures s != "" && !IsTrimmed(s) ==> |Trim(s)| < |s|
    ensures forall c :: c in Trim(s) ==> c in s
  {
    TrimStartIsTail(s);
    TrimEndIsHead(TrimStart(s));
  }

  lemma {:induction false} TrimStartIsTail(s: string)
    ensures forall c :: c in TrimStart(s) ==> c in s
    ensures s != "" && IsSpace(s[0]) ==> |TrimStart(s)| < |s|
    ensures (s == "" || !IsSpace(s[0])) ==> TrimStart(s) == s
  {
    if s != "" && IsSpace(s[0]) { TrimStartIsTail(s[1..]); }
  }

  lemma {:induction false} TrimEndIsHead(s: string)
    ensures forall c :: c in TrimEnd(s) ==> c in s
    ensures s != "" && IsSpace(s[|s| - 1]) ==> |TrimEnd(s)| < |s|
  {
    if s != "" && IsSpace(s[|s| - 1]) { TrimEndIsHead(s[..|s| - 1]); }
  }

  /** Pieces are no longer than the text and hold no comma. */
  lemma {:induction false} PiecesAreShort(s: string)
    ensures forall p :: p in Naive(s) ==> |p| <= |s| && ',' !in p
    decreases |s|
  {
    hide Naive, Trim;
    var i := FirstComma(s);
    NaiveStep(s, i);
    TrimIsShorter(s[..i]);
    if i < |s| { PiecesAreShort(s[i + 1..]); }
  }

  lemma OnePiece(v: string)
    requires IsClean(v) && ',' !in v
    ensures Naive(v) == [v]
  {
    hide Naive, Trim;
    FirstCommaBefore(v, "");
    NaiveStep(v, |v|);
    assert v[..|v|] == v;
    TrimKeeps(v);
  }

  // ---- the round trip ----

  predicate IsClean(v: string) {
    v != "" && IsTrimmed(v)
  }

  ghost predicate AllClean(values: seq<string>) {
    forall i :: 0 <= i < |values| ==> IsClean(values[i])
  }

  ghost predicate AllKnown(values: seq<string>, known: seq<string>) {
    forall i :: 0 <= i < |values| ==> values[i] in known
  }

  /** Written before the list `vs`, the value `k` is not told from the longer known value `l`. */
  ghost predicate ReadsOver(k: string, l: string, vs: seq<string>) {
    vs != [] && k < l && l <= k + ", " + Join(vs)
  }

  ghost predicate CanStand(k: string) {
    k != "" && IsTrimmed(k) && k[0] != ','
  }

  /** Known values that can be told apart in any list: none is blank-edged, empty or led by a
      comma; each one with a comma has a piece that is not known; and none, written before a
      list of others, reads as a longer one. */
  ghost predicate ToldApart(known: seq<string>) {
    && (forall k :: k in known ==> CanStand(k))
    && (forall v :: v in known && ',' in v ==> exists p :: p in Naive(v) && p !in known)
    && (forall k, l, vs :: k in known && l in known && AllKnown(vs, known) ==> !ReadsOver(k, l, vs))
  }

  lemma JoinStep(values: seq<string>)
    requires |values| > 1
    ensures Join(values) == values[0] + ", " + Join(values[1..])
    ensures Join(values)[|values[0]|..] == ", " + Join(values[1..])
  {
  }

  lemma {:induction false} JoinIsClean(values: seq<string>)
    requires values != [] && AllClean(values)
    ensures IsClean(Join(values)) && values[0] <= Join(values)
    decreases |values|
  {
    assert IsClean(values[0]);
    if |values| > 1 {
      var more := values[1..];
      assert AllClean(more);
      JoinIsClean(more);
      JoinStep(values);
      var j, all := Join(more), Join(values);
      assert all[|all| - 1] == j[|j| - 1] && all[0] == values[0][0];
    }
  }

  /** The pieces of a list are those of its first value and those of the rest. */
  lemma PiecesOfList(values: seq<string>)
    requires |values| > 1
    ensures Naive(Join(values)) == Naive(values[0]) + Naive(Join(values[1..]))
  {
    hide Naive, Join;
    var rest := Join(values[1..]);
    JoinStep(values);
    assert values[0] + ", " + rest == values[0] + "," + (" " + rest) && (" " + rest)[1..] == rest;
    NaiveJoins(values[0], " " + rest);
    NaiveSkips(" " + rest);
  }

  lemma {:induction false} PiecesOfValue(values: seq<string>, k: nat, p: string)
    requires k < |values| && p in Naive(values[k])
    ensures p in Naive(Join(values))
    decreases |values|
  {
    hide Naive;
    if |values| > 1 {
      PiecesOfList(values);
      if k > 0 { PiecesOfValue(values[1..], k - 1, p); }
    }
  }

  /** Without commas inside the values the plain pieces are the values. */
  lemma {:induction false} NaiveRecovers(values: seq<string>)
    requires values != [] && AllClean(values) && forall i :: 0 <= i < |values| ==> ',' !in values[i]
    ensures Naive(Join(values)) == values
    decreases |values|
  {
    hide Naive;
    OnePiece(values[0]);
    if |values| > 1 {
      PiecesOfList(values);
      NaiveRecovers(values[1..]);
      assert values == [values[0]] + values[1..];
    }
  }

  /** At a cursor where a list of known values stands, the scan takes its first value. */
  lemma TakesTheValue(known: seq<string>, values: seq<string>)
    requires ToldApart(known) && AllKnown(values, known) && values != []
    ensures LongestKnown(known, Join(values)) == Some(values[0])
  {
    hide LongestKnown;
    KnownAreClean(values, known);
    JoinIsClean(values);
    var v, rest, hit := values[0], Join(values), LongestKnown(known, Join(values));
    assert hit.Some? && v <= hit.value;
    if |values| > 1 {
      JoinStep(values);
      assert AllKnown(values[1..], known) && !ReadsOver(v, hit.value, values[1..]);
    }
    assert |v| == |hit.value| && v == hit.value;
  }

  lemma SkipsOneSeparator(j: string)
    requires j != "" && j[0] != ',' && j[0] != ' '
    ensures SkipSeparators(", " + j) == j
  {
    var a, b := ", " + j, " " + j;
    assert a[1..] == b && b[1..] == j;
    assert SkipSeparators(a) == SkipSeparators(b) == SkipSeparators(j) == j;
  }

  lemma KnownAreClean(values: seq<string>, known: seq<string>)
    requires ToldApart(known) && AllKnown(values, known)
    ensures AllClean(values) && forall i :: 0 <= i < |values| ==> values[i][0] != ','
  {
    forall i | 0 <= i < |values| ensures CanStand(values[i]) { assert values[i] in known; }
  }

  lemma TurnTakesTheFirst(values: seq<string>, known: seq<string>)
    requires ToldApart(known) && AllKnown(values, known) && values != []
    ensures Join(values) != ""
    ensures Turn(Join(values), known) == ([values[0]], Join(values[1..]))
  {
    hide LongestKnown, ToldApart;
    KnownAreClean(values, known);
    JoinIsClean(values);
    TakesTheValue(known, values);
    if |values| > 1 {
      var more := values[1..];
      KnownAreClean(more, known);
      JoinIsClean(more);
      JoinStep(values);
      assert Join(more)[0] == more[0][0];
      SkipsOneSeparator(Join(more));
    } else {
      assert Join(values)[|values[0]|..] == "" && values[1..] == [];
    }
  }

  lemma {:induction false} ScanRecovers(values: seq<string>, known: seq<string>)
    requires ToldApart(known) && AllKnown(values, known)
    ensures Scan(Join(values), known) == Some(values)
    decreases |values|
  {
    hide Turn, ToldApart;
    if values != [] {
      TurnTakesTheFirst(values, known);
      NoEmptyValue(known);
      SticksIff(Join(values), known);
      ScanRecovers(values[1..], known);
      assert values == [values[0]] + values[1..];
    }
  }

  lemma NoEmptyValue(known: seq<string>)
    requires ToldApart(known)
    ensures "" !in known
  {
  }

  lemma SplitIsScan(text: string, known: seq<string>, p: string)
    requires IsClean(text) && p in Naive(text) && p !in known && known != []
    ensures Split(text, known) == Scan(text, known)
  {
    TrimKeeps(text);
  }

  lemma SplitIsNaive(text: string, known: seq<string>)
    requires IsClean(text) && forall p :: p in Naive(text) ==> p in known
    ensures Split(text, known) == Some(Naive(text))
  {
    TrimKeeps(text);
  }

  /** Writing known values into a cell and splitting the cell gives the values back, even with
      commas inside them. */
  lemma RoundTrip(values: seq<string>, known: seq<string>)
    requires ToldApart(known) && AllKnown(values, known)
    ensures Split(Join(values), known) == Some(values)
  {
    hide Naive, Scan;
    if values != [] {
      KnownAreClean(values, known);
      JoinIsClean(values);
      assert values[0] in known;
      if k :| 0 <= k < |values| && ',' in values[k] {
        var p :| p in Naive(values[k]) && p !in known;
        PiecesOfValue(values, k, p);
        SplitIsScan(Join(values), known, p);
        ScanRecovers(values, known);
      } else {
        NaiveRecovers(values);
        SplitIsNaive(Join(values), known);
      }
    }
  }

  // ---- and nothing less will do ----

  /** The values found are no longer than the text. */
  lemma {:induction false} FoundAreShort(rest: string, known: seq<string>)
    ensures Scan(rest, known).Some? ==> forall x :: x in Scan(rest, known).value ==> |x| <= |rest|
    decreases |rest|
  {
    if rest != "" && |Turn(rest, known).1| < |rest| {
      FoundAreShort(Turn(rest, known).1, known);
      TurnIsShort(rest, known);
    }
  }

  lemma TurnIsShort(rest: string, known: seq<string>)
    requires rest != ""
    ensures forall x :: x in Turn(rest, known).0 ==> |x| <= |rest|
  {
    TrimIsShorter(rest);
    TrimIsShorter(rest[..FirstComma(rest)]);
  }

  lemma SplitIsShort(text: string, known: seq<string>)
    requires Split(text, known).Some?
    ensures forall x :: x in Split(text, known).value ==> |x| <= |Trim(text)|
  {
    hide Naive, Scan, Trim;
    PiecesAreShort(Trim(text));
    FoundAreShort(Trim(text), known);
  }

  /** If a value with a comma is found in a clean text, the scan found it. */
  lemma CommasAreScanned(text: string, known: seq<string>, values: seq<string>, v: string)
    requires IsClean(text) && Split(text, known) == Some(values) && v in values && ',' in v
    ensures Scan(text, known) == Some(values)
    ensures exists p :: p in Naive(text) && p !in known
  {
    hide Naive, Scan;
    TrimKeeps(text);
    PiecesAreShort(text);
  }

  lemma ScanBegins(text: string, known: seq<string>, values: seq<string>)
    requires text != "" && Scan(text, known) == Some(values) && LongestKnown(known, text).Some?
    ensures values != [] && values[0] == LongestKnown(known, text).value
    ensures Scan(SkipSeparators(text[|values[0]|..]), known) == Some(values[1..])
  {
    var (found, next) := Turn(text, known);
    var more := Scan(next, known);
    assert values == [LongestKnown(known, text).value] + more.value;
  }

  /** Every list of known values survives. */
  ghost predicate AllSurvive(known: seq<string>) {
    forall values :: AllKnown(values, known) ==> Split(Join(values), known) == Some(values)
  }

  lemma SurvivorsAreClean(known: seq<string>, k: string)
    requires AllSurvive(known) && k in known
    ensures IsClean(k)
  {
    assert AllKnown([k], known) && Join([k]) == k;
    SplitIsShort(k, known);
    TrimIsShorter(k);
    assert k in [k];
  }

  /** With its leading comma skipped too, less is left than the value. */
  lemma LeadIsSkipped(k: string)
    requires k != "" && k[0] == ','
    ensures |SkipSeparators(", " + k)| < |k|
  {
    var a, b := ", " + k, " " + k;
    assert a[1..] == b && b[1..] == k;
    assert SkipSeparators(a) == SkipSeparators(b) == SkipSeparators(k) == SkipSeparators(k[1..]);
  }

  lemma SurvivorsStand(known: seq<string>, k: string)
    requires AllSurvive(known) && k in known
    ensures CanStand(k)
  {
    hide Naive, Scan, LongestKnown, Split, Join, SkipSeparators;
    SurvivorsAreClean(known, k);
    if k[0] == ',' {
      var values := [k, k];
      assert AllKnown(values, known) && AllClean(values) && values[1..] == [k] && k in values[1..];
      JoinIsClean(values);
      JoinStep(values);
      JoinOfOne(k);
      CommasAreScanned(Join(values), known, values, k);
      assert k <= Join(values);
      ScanBegins(Join(values), known, values);
      LeadIsSkipped(k);
      FoundAreShort(SkipSeparators(", " + k), known);
      assert false;
    }
  }

  lemma JoinOfOne(v: string)
    ensures Join([v]) == v
  {
  }

  lemma SurvivorsHaveUnknownPieces(known: seq<string>, v: string)
    requires AllSurvive(known) && v in known && ',' in v
    ensures exists p :: p in Naive(v) && p !in known
  {
    hide Naive;
    SurvivorsAreClean(known, v);
    assert AllKnown([v], known) && Join([v]) == v && v in [v];
    CommasAreScanned(v, known, [v], v);
  }

  lemma {:induction false} JoinGrows(vs: seq<string>, l: string)
    requires vs != []
    ensures Join(vs) <= Join(vs + [l])
    decreases |vs|
  {
    var more := vs + [l];
    JoinStep(more);
    if |vs| > 1 {
      assert more[1..] == vs[1..] + [l];
      JoinGrows(vs[1..], l);
      JoinStep(vs);
    }
  }

  /** The longer value stands at the start of the list that reads over it. */
  lemma LongerComesFirst(k: string, l: string, vs: seq<string>)
    requires ReadsOver(k, l, vs)
    ensures ',' in l && l <= Join([k] + vs + [l])
  {
    var values, more := [k] + vs + [l], vs + [l];
    assert values[1..] == more;
    JoinStep(values);
    JoinGrows(vs, l);
    assert l[|k|] == ',' && l <= k + ", " + Join(more);
  }

  lemma SurvivorsDoNotReadOver(known: seq<string>, k: string, l: string, vs: seq<string>)
    requires AllSurvive(known) && k in known && l in known && AllKnown(vs, known)
    ensures !ReadsOver(k, l, vs)
  {
    hide Naive, Scan, LongestKnown, Split, Join, SkipSeparators;
    if ReadsOver(k, l, vs) {
      var values := [k] + vs + [l];
      assert AllKnown(values, known) && l in values && values[0] == k;
      forall i | 0 <= i < |values| ensures IsClean(values[i]) { SurvivorsAreClean(known, values[i]); }
      JoinIsClean(values);
      LongerComesFirst(k, l, vs);
      CommasAreScanned(Join(values), known, values, l);
      ScanBegins(Join(values), known, values);
    }
  }

  /** The round trip holds for every list of known values exactly if these can be told apart. */
  lemma RoundTripIff(known: seq<string>)
    ensures AllSurvive(known) <==> ToldApart(known)
  {
    hide Split;
    if ToldApart(known) {
      forall values | AllKnown(values, known) ensures Split(Join(values), known) == Some(values) {
        RoundTrip(values, known);
      }
    }
    if AllSurvive(known) {
      forall k | k in known ensures CanStand(k) { SurvivorsStand(known, k); }
      forall v | v in known && ',' in v ensures exists p :: p in Naive(v) && p !in known {
        SurvivorsHaveUnknownPieces(known, v);
      }
      forall k, l, vs | k in known && l in known && AllKnown(vs, known) ensures !ReadsOver(k, l, vs) {
        SurvivorsDoNotReadOver(known, k, l, vs);
      }
    }
  }

  // ---- two readings of the condition ----

  /** Values none of which is the start of another can be told apart. */
  lemma NoCommonStartIsToldApart(known: seq<string>)
    requires forall k :: k in known ==> CanStand(k)
    requires forall k, l :: k in known && l in known ==> !(k < l)
    ensures ToldApart(known)
  {
    forall v | v in known && ',' in v ensures exists p :: p in Naive(v) && p !in known {
      FirstPieceUnknown(known, v);
    }
  }

  lemma FirstPieceUnknown(known: seq<string>, v: string)
    requires v in known && CanStand(v) && ',' in v && forall k :: k in known ==> !(k < v)
    ensures exists p :: p in Naive(v) && p !in known
  {
    hide Naive;
    var i := FirstComma(v);
    FirstCommaBefore(v, "");
    var piece := v[..i];
    TrimEndStops(piece);
    NaiveStep(v, i);
    assert Trim(piece) < v && Trim(piece) in Naive(v);
  }

  lemma {:induction false} TrimEndStops(s: string)
    requires s != "" && !IsSpace(s[0])
    ensures TrimEnd(s) != "" && TrimStart(s) == s
  {
    if IsSpace(s[|s| - 1]) {
      TrimEndStops(s[..|s| - 1]);
    }
  }

  lemma JoinPair(x: string, y: string)
    ensures Join([x, y]) == x + ", " + y
  {
    assert [x, y][1..] == [y];
  }

  /** When two values and the two joined by a comma are all known, the joined one is written
      like the pair and reads back as the pair. */
  lemma PrefixIsAmbiguous(x: string, y: string, known: seq<string>)
    requires IsClean(x) && IsClean(y) && ',' !in x && ',' !in y
    requires x in known && y in known && x + ", " + y in known
    ensures Join([x + ", " + y]) == Join([x, y])
    ensures Split(Join([x + ", " + y]), known) == Some([x, y]) && !ToldApart(known)
  {
    hide Naive, Scan, Trim;
    JoinPair(x, y);
    JoinIsClean([x, y]);
    NaiveRecovers([x, y]);
    SplitIsNaive(Join([x, y]), known);
    assert Join([y]) == y && AllKnown([y], known) && ReadsOver(x, x + ", " + y, [y]);
  }

  // ---- nothing is discarded ----

  /** What is left of a text without commas and white space. */
  function Solid(s: string): string {
    if s == "" then "" else (if s[0] == ',' || IsSpace(s[0]) then "" else [s[0]]) + Solid(s[1..])
  }

  function Concat(values: seq<string>): string {
    if values == [] then "" else values[0] + Concat(values[1..])
  }

  lemma Regroup(a: string, b: string, c: string)
    ensures (a + b) + c == a + (b + c)
  {
  }

  lemma {:induction false} SolidJoins(a: string, b: string)
    ensures Solid(a + b) == Solid(a) + Solid(b)
  {
    if a == "" {
      assert a + b == b;
    } else {
      SolidJoins(a[1..], b);
      assert (a + b)[1..] == a[1..] + b;
      Regroup(if a[0] == ',' || IsSpace(a[0]) then "" else [a[0]], Solid(a[1..]), Solid(b));
    }
  }

  lemma SolidParts(s: string, i: nat)
    requires i <= |s|
    ensures Solid(s) == Solid(s[..i]) + Solid(s[i..])
  {
    assert s == s[..i] + s[i..];
    SolidJoins(s[..i], s[i..]);
  }

  lemma SolidBehindComma(s: string, i: nat)
    requires i < |s| && s[i] == ','
    ensures Solid(s) == Solid(s[..i]) + Solid(s[i + 1..])
  {
    hide Solid;
    SolidParts(s, i);
    CommaIsNotSolid(s[i..]);
    assert s[i..][1..] == s[i + 1..];
  }

  lemma CommaIsNotSolid(s: string)
    requires s != "" && s[0] == ','
    ensures Solid(s) == Solid(s[1..])
  {
    assert "" + Solid(s[1..]) == Solid(s[1..]);
  }

  lemma {:induction false} TrimStartKeepsSolid(s: string)
    ensures Solid(TrimStart(s)) == Solid(s)
  {
    if s != "" && IsSpace(s[0]) { TrimStartKeepsSolid(s[1..]); }
  }

  lemma {:induction false} TrimEndKeepsSolid(s: string)
    ensures Solid(TrimEnd(s)) == Solid(s)
  {
    if s != "" && IsSpace(s[|s| - 1]) {
      TrimEndKeepsSolid(s[..|s| - 1]);
      SolidParts(s, |s| - 1);
      assert s[|s| - 1..] == [s[|s| - 1]];
    }
  }

  lemma TrimKeepsSolid(s: string)
    ensures Solid(Trim(s)) == Solid(s)
  {
    TrimStartKeepsSolid(s);
    TrimEndKeepsSolid(TrimStart(s));
  }

  lemma {:induction false} SkippingKeepsSolid(s: string)
    ensures Solid(SkipSeparators(s)) == Solid(s)
  {
    if s != "" && (s[0] == ',' || s[0] == ' ') { SkippingKeepsSolid(s[1..]); }
  }

  lemma {:induction false} ConcatJoins(a: seq<string>, b: seq<string>)
    ensures Concat(a + b) == Concat(a) + Concat(b)
  {
    if a == [] {
      assert a + b == b;
    } else {
      ConcatJoins(a[1..], b);
      assert (a + b)[1..] == a[1..] + b;
      Regroup(a[0], Concat(a[1..]), Concat(b));
    }
  }

  lemma ConcatPiece(piece: string)
    ensures Concat(if piece == "" then [] else [piece]) == piece && Concat([piece]) == piece
  {
    assert piece + "" == piece;
  }

  lemma {:induction false} NaiveKeepsSolid(s: string)
    ensures Solid(Concat(Naive(s))) == Solid(s)
    decreases |s|
  {
    hide Naive, Trim, Solid, Concat;
    var i := FirstComma(s);
    var piece := Trim(s[..i]);
    var found := if piece == "" then [] else [piece];
    NaiveStep(s, i);
    ConcatPiece(piece);
    TrimKeepsSolid(s[..i]);
    if i < |s| {
      NaiveKeepsSolid(s[i + 1..]);
      ConcatJoins(found, Naive(s[i + 1..]));
      SolidJoins(piece, Concat(Naive(s[i + 1..])));
      SolidBehindComma(s, i);
    } else {
      assert s[..i] == s && found + [] == found;
    }
  }

  lemma TurnKeepsSolid(rest: string, known: seq<string>)
    requires rest != ""
    ensures var (found, next) := Turn(rest, known); Solid(Concat(found)) + Solid(next) == Solid(rest)
  {
    hide Trim, Solid, Concat, LongestKnown, SkipSeparators, TrimStart, FirstComma;
    var hit := LongestKnown(known, rest);
    if hit.Some? {
      SolidBehindHit(rest, hit.value);
    } else if FirstComma(rest) < |rest| {
      SolidBehindPiece(rest, FirstComma(rest));
    } else {
      ConcatPiece(Trim(rest));
      TrimKeepsSolid(rest);
      SolidOfNothing();
    }
  }

  lemma SolidBehindHit(rest: string, v: string)
    requires v <= rest
    ensures Solid(Concat([v])) + Solid(SkipSeparators(rest[|v|..])) == Solid(rest)
  {
    hide Solid, Concat, SkipSeparators;
    assert rest[..|v|] == v;
    SolidParts(rest, |v|);
    SkippingKeepsSolid(rest[|v|..]);
    ConcatPiece(v);
  }

  lemma SolidBehindPiece(rest: string, i: nat)
    requires i < |rest| && rest[i] == ','
    ensures var piece := Trim(rest[..i]);
      Solid(Concat(if piece == "" then [] else [piece])) + Solid(TrimStart(rest[i + 1..])) == Solid(rest)
  {
    hide Solid, Concat, Trim, TrimStart;
    ConcatPiece(Trim(rest[..i]));
    TrimKeepsSolid(rest[..i]);
    TrimStartKeepsSolid(rest[i + 1..]);
    SolidBehindComma(rest, i);
  }

  lemma SolidOfNothing()
    ensures Solid("") == "" && Concat([]) == ""
  {
  }

  lemma {:induction false} ScanKeepsSolid(rest: string, known: seq<string>)
    requires Scan(rest, known).Some?
    ensures Solid(Concat(Scan(rest, known).value)) == Solid(rest)
    decreases |rest|
  {
    hide Turn, Solid, Concat;
    SolidOfNothing();
    if rest != "" {
      var (found, next) := Turn(rest, known);
      TurnKeepsSolid(rest, known);
      ScanKeepsSolid(next, known);
      var more := Scan(next, known).value;
      ConcatJoins(found, more);
      SolidJoins(Concat(found), Concat(more));
    }
  }

  /** Whatever the known values are, a split that ends discards nothing: apart from commas and
      white space the values hold, in order, exactly the characters of the cell. */
  lemma NothingIsDiscarded(text: string, known: seq<string>)
    requires Split(text, known).Some?
    ensures Solid(Concat(Split(text, known).value)) == Solid(text)
  {
    hide Trim, Naive, Scan, Solid, Concat;
    TrimKeepsSolid(text);
    NaiveKeepsSolid(Trim(text));
    if Trim(text) == "" {
      SolidOfNothing();
    } else if !(known == [] || forall p :: p in Naive(Trim(text)) ==> p in known) {
      ScanKeepsSolid(Trim(text), known);
    }
  }

  /** Between two values only commas and blanks are skipped, all of them. */
  lemma {:induction false} OnlySeparatorsAreSkipped(s: string)
    ensures var r := SkipSeparators(s);
      && (r != "" ==> r[0] != ',' && r[0] != ' ')
      && exists n :: 0 <= n <= |s| && r == s[n..] && forall i :: 0 <= i < n ==> s[i] == ',' || s[i] == ' '
  {
    if s != "" && (s[0] == ',' || s[0] == ' ') {
      OnlySeparatorsAreSkipped(s[1..]);
      var n :| 0 <= n <= |s| - 1 && SkipSeparators(s[1..]) == s[1..][n..]
        && forall i :: 0 <= i < n ==> s[1..][i] == ',' || s[1..][i] == ' ';
      assert s[1..][n..] == s[n + 1..];
      forall i | 0 <= i < n + 1 ensures s[i] == ',' || s[i] == ' ' { if i > 0 { assert s[1..][i - 1] == s[i]; } }
    } else {
      assert s[0..] == s;
    }
  }

  // ---- lists with unknown values ----

  /** A value that is not known: a plain piece, no start of a known value and none its start. */
  ghost predicate IsStranger(x: string, known: seq<string>) {
    IsClean(x) && ',' !in x && forall k :: k in known ==> !(k <= x) && !(x <= k)
  }

  /** Known values none of which is the start of another, so that each can be told at once. */
  ghost predicate NoCommonStart(known: seq<string>) {
    (forall k :: k in known ==> CanStand(k)) && forall k, l :: k in known && l in known ==> !(k < l)
  }

  ghost predicate Mixed(values: seq<string>, known: seq<string>) {
    forall i :: 0 <= i < |values| ==> values[i] in known || IsStranger(values[i], known)
  }

  lemma MixedAreClean(values: seq<string>, known: seq<string>)
    requires NoCommonStart(known) && Mixed(values, known)
    ensures AllClean(values) && forall i :: 0 <= i < |values| ==> values[i][0] != ','
  {
    forall i | 0 <= i < |values| ensures CanStand(values[i]) {}
  }

  /** At a cursor where the list stands: a known value is found as such, a stranger is not. */
  lemma FindsTheKnown(values: seq<string>, known: seq<string>)
    requires NoCommonStart(known) && Mixed(values, known) && values != []
    ensures LongestKnown(known, Join(values)) == if values[0] in known then Some(values[0]) else None
  {
    hide LongestKnown, Join;
    MixedAreClean(values, known);
    JoinIsClean(values);
    var v, rest, hit := values[0], Join(values), LongestKnown(known, Join(values));
    if hit.Some? {
      StartsCompare(v, hit.value, rest);
      assert v in known || IsStranger(v, known);
    }
  }

  lemma StartsCompare(a: string, b: string, s: string)
    requires a <= s && b <= s
    ensures a < b || b < a || a == b
    ensures a <= b || b <= a
  {
    if |a| == |b| { assert a == b; }
  }

  lemma CommaAfterClean(a: string, b: string)
    requires ',' !in a
    ensures FirstComma(a + ", " + b) == |a| && (a + ", " + b)[..|a|] == a && (a + ", " + b)[|a| + 1..] == " " + b
  {
    hide FirstComma;
    FirstCommaBefore(a, " " + b);
    BlankAfterComma(a, b);
    AroundTheComma(a, " " + b);
  }

  lemma BlankAfterComma(a: string, b: string)
    ensures a + "," + (" " + b) == a + ", " + b
  {
    assert "," + (" " + b) == ", " + b;
  }

  lemma AroundTheComma(a: string, tail: string)
    ensures (a + "," + tail)[..|a|] == a && (a + "," + tail)[|a| + 1..] == tail
  {
  }

  lemma TrimStartOfBlank(b: string)
    requires b != "" && !IsSpace(b[0])
    ensures TrimStart(" " + b) == b
  {
    assert (" " + b)[1..] == b;
  }

  lemma TurnTakesTheNext(values: seq<string>, known: seq<string>)
    requires NoCommonStart(known) && Mixed(values, known) && values != []
    ensures Join(values) != ""
    ensures Turn(Join(values), known) == ([values[0]], Join(values[1..]))
  {
    hide LongestKnown, NoCommonStart, IsStranger, Trim, TrimStart, SkipSeparators;
    MixedAreClean(values, known);
    JoinIsClean(values);
    FindsTheKnown(values, known);
    var v, more := values[0], values[1..];
    TrimKeeps(v);
    StrangersHoldNoComma(values, known);
    if |values| > 1 {
      assert Mixed(more, known);
      MixedAreClean(more, known);
      JoinIsClean(more);
      JoinStep(values);
      assert Join(more)[0] == more[0][0];
      if v in known {
        SkipsOneSeparator(Join(more));
      } else {
        CommaAfterClean(v, Join(more));
        TrimStartOfBlank(Join(more));
      }
    } else {
      assert Join(values) == v && Join(more) == "";
      if v in known {
        assert v[|v|..] == "";
        SkipNothing();
      } else {
        FirstCommaBefore(v, "");
      }
    }
  }

  lemma SkipNothing()
    ensures SkipSeparators("") == ""
  {
  }

  lemma StrangersHoldNoComma(values: seq<string>, known: seq<string>)
    requires Mixed(values, known)
    ensures forall i :: 0 <= i < |values| && values[i] !in known ==> ',' !in values[i]
  {
  }

  lemma {:induction false} ScanRecoversAll(values: seq<string>, known: seq<string>)
    requires NoCommonStart(known) && Mixed(values, known)
    ensures Scan(Join(values), known) == Some(values)
    decreases |values|
  {
    hide Turn, NoCommonStart, IsStranger;
    if values != [] {
      TurnTakesTheNext(values, known);
      EmptyIsNotKnown(known);
      SticksIff(Join(values), known);
      ScanRecoversAll(values[1..], known);
      assert values == [values[0]] + values[1..];
    }
  }

  lemma EmptyIsNotKnown(known: seq<string>)
    requires NoCommonStart(known)
    ensures "" !in known
  {
  }

  /** Splitting gives back lists that mix known values with unknown ones: each unknown value
      comes back whole, in its place. */
  lemma MixedRoundTrip(values: seq<string>, known: seq<string>)
    requires NoCommonStart(known) && Mixed(values, known)
    ensures Split(Join(values), known) == Some(values)
  {
    hide Naive, Scan, IsStranger, LongestKnown;
    if values != [] {
      MixedAreClean(values, known);
      JoinIsClean(values);
      if k :| 0 <= k < |values| && values[k] !in known {
        StrangersHoldNoComma(values, known);
        if known == [] {
          NaiveRecovers(values);
          TrimKeeps(Join(values));
        } else {
          OnePiece(values[k]);
          PiecesOfValue(values, k, values[k]);
          SplitIsScan(Join(values), known, values[k]);
          ScanRecoversAll(values, known);
        }
      } else {
        NoCommonStartIsToldApart(known);
        RoundTrip(values, known);
      }
    }
  }
}
