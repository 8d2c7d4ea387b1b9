/** The CSV codec of workspace archives. */
module Csv {
  import opened Cells

  const BOM: char := '\U{FEFF}'

  type Record = seq<string>

  predicate NeedsQuotes(field: string) {
    || ',' in field || '"' in field || '\n' in field || '\r' in field
    || (field != "" && (field[0] == ' ' || field[|field| - 1] == ' '))
  }

  /** Embedded quotes are doubled. */
  function Escaped(field: string): string {
    if field == "" then "" else (if field[0] == '"' then ['"', '"'] else [field[0]]) + Escaped(field[1..])
  }

  function QuoteField(field: string): string {
    if NeedsQuotes(field) then ['"'] + Escaped(field) + ['"'] else field
  }

  function WriteFields(row: Record): string {
    if row == [] then ""
    else
      var n := |row| - 1;
      WriteFields(row[..n]) + (if n > 0 then "," else "") + QuoteField(row[n])
  }

  function WriteRows(rows: seq<Record>): string {
    if rows == [] then "" else WriteRows(rows[..|rows| - 1]) + WriteFields(rows[|rows| - 1]) + "\n"
  }

  lemma OneFieldMore(start: string, row: Record, i: nat)
    requires i < |row|
    ensures start + WriteFields(row[..i + 1]) ==
      start + WriteFields(row[..i]) + (if i > 0 then "," else "") + QuoteField(row[i])
  {
    assert row[..i + 1][..i] == row[..i];
  }

  method WriteRecord(row: Record, start: string) returns (out: string)
    ensures out == start + WriteFields(row)
  {
    out := start;
    assert start + WriteFields(row[..0]) == start;
    hide WriteFields, QuoteField;
    for i := 0 to |row|
      invariant out == start + WriteFields(row[..i])
    {
      OneFieldMore(start, row, i);
      if i > 0 {
        out := out + ",";
      }
      out := out + QuoteField(row[i]);
    }
    assert row[..|row|] == row;
  }

  method WriteCsv(rows: seq<Record>) returns (out: string)
    ensures out == WriteRows(rows)
  {
    out := "";
    for k := 0 to |rows|
      invariant out == WriteRows(rows[..k])
    {
      assert rows[..k + 1][..k] == rows[..k];
      out := WriteRecord(rows[k], out);
      out := out + "\n";
    }
    assert rows[..|rows|] == rows;
  }

  // ---- reading ----

  /** The reader between two characters: the field and row being read, the rows read. */
  datatype Reader = Reader(field: string, row: Record, rows: seq<Record>, quoted: bool)

  const START: Reader := Reader("", [], [], false)

  function Push(r: Reader, c: char): Reader {
    r.(field := r.field + [c])
  }

  function EndField(r: Reader): Reader {
    r.(field := "", row := r.row + [r.field])
  }

  function EndRow(r: Reader): Reader {
    r.(field := "", row := [], rows := r.rows + [r.row + [r.field]])
  }

  /** How many characters the reader takes at once: a doubled quote inside quotes, and a
      CR LF outside them, count as one. */
  function Taken(r: Reader, text: string): nat
    requires text != ""
  {
    if |text| > 1 && ((r.quoted && text[0] == '"' && text[1] == '"') ||
                      (!r.quoted && text[0] == '\r' && text[1] == '\n'))
    then 2 else 1
  }

  function Read(r: Reader, text: string): Reader
    requires text != ""
  {
    var c := text[0];
    if r.quoted then
      if c == '"' then (if Taken(r, text) == 2 then Push(r, '"') else r.(quoted := false)) else Push(r, c)
    else if c == '"' && r.field == "" then r.(quoted := true)
    else if c == ',' then EndField(r)
    else if c == '\r' || c == '\n' then EndRow(r)
    else Push(r, c)
  }

  function ReadAll(r: Reader, text: string): Reader
    decreases |text|
  {
    if text == "" then r else ReadAll(Read(r, text), text[Taken(r, text)..])
  }

  function Finished(r: Reader): seq<Record> {
    if r.field != "" || r.row != [] then r.rows + [r.row + [r.field]] else r.rows
  }

  predicate IsBlank(row: Record) {
    |row| == 1 && row[0] == ""
  }

  function WithoutBlanks(rows: seq<Record>): seq<Record> {
    if rows == [] then []
    else WithoutBlanks(rows[..|rows| - 1]) + if IsBlank(rows[|rows| - 1]) then [] else [rows[|rows| - 1]]
  }

  function WithoutBom(text: string): string {
    if text != "" && text[0] == BOM then text[1..] else text
  }

  /** Records of a CSV text: a byte-order mark is dropped, and so are blank lines. */
  function Parse(text: string): seq<Record> {
    WithoutBlanks(Finished(ReadAll(START, WithoutBom(text))))
  }

  /** One turn of the reader at position `at`. */
  lemma ReadsOn(r: Reader, text: string, at: nat)
    requires at < |text|
    ensures ReadAll(r, text[at..]) == ReadAll(Read(r, text[at..]), text[at + Taken(r, text[at..])..])
    ensures text[at..][0] == text[at] && (at + 1 < |text| ==> text[at..][1] == text[at + 1])
  {
    var n := Taken(r, text[at..]);
    assert text[at..][n..] == text[at + n..];
  }

  method ParseCsv(original: string) returns (rows: seq<Record>)
    ensures rows == Parse(original)
  {
    var text := WithoutBom(original);
    var row: Record, field: string, quoted := [], "", false;
    rows := [];
    var at := 0;
    assert text[0..] == text;
    while at < |text|
      invariant at <= |text|
      invariant ReadAll(START, text) == ReadAll(Reader(field, row, rows, quoted), text[at..])
    {
      ReadsOn(Reader(field, row, rows, quoted), text, at);
      var c := text[at];
      var next := if at + 1 < |text| then Some(text[at + 1]) else None;
      at := at + 1;
      if quoted {
        if c == '"' {
          if next == Some('"') {
            at := at + 1;
            field := field + ['"'];
          } else {
            quoted := false;
          }
        } else {
          field := field + [c];
        }
        continue;
      }
      if c == '"' && field == "" {
        quoted := true;
      } else if c == ',' {
        row, field := row + [field], "";
      } else if c == '\r' {
        if next == Some('\n') {
          at := at + 1;
        }
        rows, row, field := rows + [row + [field]], [], "";
      } else if c == '\n' {
        rows, row, field := rows + [row + [field]], [], "";
      } else {
        field := field + [c];
      }
    }
    if field != "" || row != [] {
      rows := rows + [row + [field]];
    }
    var kept: seq<Record> := [];
    for i := 0 to |rows|
      invariant kept == WithoutBlanks(rows[..i])
    {
      assert rows[..i + 1][..i] == rows[..i];
      if !IsBlank(rows[i]) {
        kept := kept + [rows[i]];
      }
    }
    assert rows[..|rows|] == rows;
    rows := kept;
  }

  // ---- reading back what was written ----

  predicate IsSpecial(c: char) {
    c == ',' || c == '"' || c == '\n' || c == '\r'
  }

  lemma {:induction false} ReadPlain(r: Reader, f: string, rest: string)
    requires !r.quoted && forall i :: 0 <= i < |f| ==> !IsSpecial(f[i])
    ensures ReadAll(r, f + rest) == ReadAll(r.(field := r.field + f), rest)
    decreases |f|
  {
    if f == "" {
      assert f + rest == rest && r.field + f == r.field;
    } else {
      var text := f + rest;
      assert text[0] == f[0] && text[1..] == f[1..] + rest;
      ReadPlain(Push(r, f[0]), f[1..], rest);
      assert r.field + [f[0]] + f[1..] == r.field + f;
    }
  }

  lemma {:induction false} ReadEscaped(r: Reader, f: string, rest: string)
    requires r.quoted && rest != "" && rest[0] == '"' && (|rest| > 1 ==> rest[1] != '"')
    ensures ReadAll(r, Escaped(f) + rest) == ReadAll(r.(field := r.field + f), rest)
    decreases |f|
  {
    if f == "" {
      assert Escaped(f) + rest == rest && r.field + f == r.field;
    } else {
      ReadEscapedHead(r, f, rest);
      ReadEscaped(Push(r, f[0]), f[1..], rest);
      assert r.field + [f[0]] + f[1..] == r.field + f;
    }
  }

  lemma ReadDoubled(r: Reader, tail: string)
    requires r.quoted
    ensures ReadAll(r, ['"', '"'] + tail) == ReadAll(Push(r, '"'), tail)
  {
    assert (['"', '"'] + tail)[2..] == tail;
  }

  lemma ReadInQuotes(r: Reader, c: char, tail: string)
    requires r.quoted && c != '"'
    ensures ReadAll(r, [c] + tail) == ReadAll(Push(r, c), tail)
  {
    assert ([c] + tail)[1..] == tail;
  }

  lemma ReadEscapedHead(r: Reader, f: string, rest: string)
    requires r.quoted && f != ""
    ensures ReadAll(r, Escaped(f) + rest) == ReadAll(Push(r, f[0]), Escaped(f[1..]) + rest)
  {
    hide ReadAll, Push;
    var tail := Escaped(f[1..]) + rest;
    if f[0] == '"' {
      assert Escaped(f) + rest == ['"', '"'] + tail;
      ReadDoubled(r, tail);
    } else {
      assert Escaped(f) + rest == [f[0]] + tail;
      ReadInQuotes(r, f[0], tail);
    }
  }

  lemma ReadQuoted(r: Reader, f: string, rest: string)
    requires !r.quoted && r.field == "" && rest != "" && rest[0] != '"'
    ensures ReadAll(r, ['"'] + Escaped(f) + ['"'] + rest) == ReadAll(r.(field := f), rest)
  {
    var text := ['"'] + Escaped(f) + ['"'] + rest;
    var close := ['"'] + rest;
    assert text[0] == '"' && text[1..] == Escaped(f) + close;
    ReadEscaped(r.(quoted := true), f, close);
    assert r.field + f == f && close[1..] == rest;
  }

  lemma SpecialsNeedQuotes(f: string)
    requires !NeedsQuotes(f)
    ensures forall i :: 0 <= i < |f| ==> !IsSpecial(f[i])
  {
    forall i | 0 <= i < |f| ensures !IsSpecial(f[i]) {
      assert f[i] in f;
    }
  }

  /** A written field reads back as itself, whatever is in it. */
  lemma ReadField(r: Reader, f: string, rest: string)
    requires !r.quoted && r.field == "" && rest != "" && rest[0] != '"'
    ensures ReadAll(r, QuoteField(f) + rest) == ReadAll(r.(field := f), rest)
  {
    if NeedsQuotes(f) {
      ReadQuoted(r, f, rest);
    } else {
      SpecialsNeedQuotes(f);
      ReadPlain(r, f, rest);
      assert r.field + f == f;
    }
  }

  lemma ReadComma(r: Reader, rest: string)
    requires !r.quoted
    ensures ReadAll(r, "," + rest) == ReadAll(EndField(r), rest)
  {
    assert ("," + rest)[1..] == rest;
  }

  lemma ReadNewline(r: Reader, rest: string)
    requires !r.quoted
    ensures ReadAll(r, "\n" + rest) == ReadAll(EndRow(r), rest)
  {
    assert ("\n" + rest)[1..] == rest;
  }

  lemma WriteFieldsLast(init: Record, f: string, rest: string)
    ensures WriteFields(init + [f]) + rest ==
      WriteFields(init) + ((if init == [] then "" else ",") + (QuoteField(f) + rest))
  {
    assert (init + [f])[..|init|] == init;
  }

  /** Reading the fields of a record leaves the last of them in the field buffer. */
  lemma {:induction false} ReadFields(rows: seq<Record>, init: Record, f: string, rest: string)
    requires rest != "" && rest[0] != '"'
    ensures ReadAll(Reader("", [], rows, false), WriteFields(init + [f]) + rest) ==
      ReadAll(Reader(f, init, rows, false), rest)
    decreases |init|
  {
    var own := QuoteField(f) + rest;
    WriteFieldsLast(init, f, rest);
    if init == [] {
      assert WriteFields(init) + ("" + own) == own;
    } else {
      var n := |init| - 1;
      assert init == init[..n] + [init[n]];
      ReadFields(rows, init[..n], init[n], "," + own);
      ReadComma(Reader(init[n], init[..n], rows, false), own);
    }
    ReadField(Reader("", init, rows, false), f, rest);
  }

  /** A line without fields reads as one empty field. */
  function AsRead(row: Record): Record {
    if row == [] then [""] else row
  }

  lemma ReadRecord(rows: seq<Record>, row: Record, rest: string)
    ensures ReadAll(Reader("", [], rows, false), WriteFields(row) + "\n" + rest)
         == ReadAll(Reader("", [], rows + [AsRead(row)], false), rest)
  {
    var tail := "\n" + rest;
    assert WriteFields(row) + "\n" + rest == WriteFields(row) + tail;
    if row == [] {
      assert WriteFields(row) + tail == tail && [] + [""] == [""];
      ReadNewline(Reader("", [], rows, false), rest);
    } else {
      var n := |row| - 1;
      assert row == row[..n] + [row[n]];
      ReadFields(rows, row[..n], row[n], tail);
      ReadNewline(Reader(row[n], row[..n], rows, false), rest);
    }
  }

  function AllAsRead(rows: seq<Record>): (r: seq<Record>)
    ensures |r| == |rows|
  {
    if rows == [] then [] else AllAsRead(rows[..|rows| - 1]) + [AsRead(rows[|rows| - 1])]
  }

  lemma {:induction false} ReadRecords(before: seq<Record>, rows: seq<Record>, rest: string)
    ensures ReadAll(Reader("", [], before, false), WriteRows(rows) + rest)
         == ReadAll(Reader("", [], before + AllAsRead(rows), false), rest)
  {
    if rows == [] {
      assert WriteRows(rows) + rest == rest && before + AllAsRead(rows) == before;
    } else {
      var n := |rows| - 1;
      var line := WriteFields(rows[n]) + "\n" + rest;
      assert WriteRows(rows) + rest == WriteRows(rows[..n]) + line;
      ReadRecords(before, rows[..n], line);
      ReadRecord(before + AllAsRead(rows[..n]), rows[n], rest);
      assert before + AllAsRead(rows[..n]) + [AsRead(rows[n])] == before + AllAsRead(rows);
    }
  }

  /** The records a round trip keeps: those with anything in them. */
  function Kept(rows: seq<Record>): seq<Record> {
    if rows == [] then []
    else
      var last := rows[|rows| - 1];
      Kept(rows[..|rows| - 1]) + if last == [] || last == [""] then [] else [last]
  }

  lemma {:induction false} BlanksDropped(rows: seq<Record>)
    ensures WithoutBlanks(AllAsRead(rows)) == Kept(rows)
  {
    if rows != [] {
      BlanksDropped(rows[..|rows| - 1]);
      assert AllAsRead(rows)[..|rows| - 1] == AllAsRead(rows[..|rows| - 1]);
    }
  }

  lemma BodyRoundTrip(rows: seq<Record>)
    ensures WithoutBlanks(Finished(ReadAll(START, WriteRows(rows)))) == Kept(rows)
  {
    assert WriteRows(rows) + "" == WriteRows(rows) && [] + AllAsRead(rows) == AllAsRead(rows);
    ReadRecords([], rows, "");
    BlanksDropped(rows);
  }

  // ---- the byte-order mark ----

  predicate StartsWithBom(rows: seq<Record>) {
    rows != [] && rows[0] != [] && rows[0][0] != "" && rows[0][0][0] == BOM && !NeedsQuotes(rows[0][0])
  }

  function LosingBom(rows: seq<Record>): seq<Record>
    requires StartsWithBom(rows)
  {
    [[rows[0][0][1..]] + rows[0][1..]] + rows[1..]
  }

  lemma WriteRowsSnoc(init: seq<Record>, row: Record)
    ensures WriteRows(init + [row]) == WriteRows(init) + WriteFields(row) + "\n"
  {
    assert (init + [row])[..|init|] == init;
  }

  lemma {:induction false} WriteRowsFront(row: Record, rows: seq<Record>)
    ensures WriteRows([row] + rows) == WriteFields(row) + "\n" + WriteRows(rows)
    decreases |rows|
  {
    hide WriteRows, WriteFields;
    NoRows();
    if rows == [] {
      WriteRowsSnoc([], row);
      assert [row] + rows == [] + [row];
    } else {
      var init, last := rows[..|rows| - 1], rows[|rows| - 1];
      WriteRowsFront(row, init);
      WriteRowsSnoc([row] + init, last);
      WriteRowsSnoc(init, last);
      assert [row] + rows == [row] + init + [last] && rows == init + [last];
      var a, b, c := WriteFields(row) + "\n", WriteRows(init), WriteFields(last);
      assert a + b + c + "\n" == a + (b + c + "\n");
    }
  }

  lemma NoRows()
    ensures WriteRows([]) == ""
  {
  }

  lemma WriteFieldsSnoc(init: Record, f: string)
    ensures WriteFields(init + [f]) ==
      if init == [] then QuoteField(f) else WriteFields(init) + "," + QuoteField(f)
  {
    assert (init + [f])[..|init|] == init;
    assert WriteFields([]) + "" + QuoteField(f) == QuoteField(f);
  }

  lemma {:induction false} WriteFieldsFront(f: string, row: Record)
    ensures WriteFields([f] + row) == QuoteField(f) + if row == [] then "" else "," + WriteFields(row)
    decreases |row|
  {
    hide QuoteField, WriteFields;
    if row == [] {
      WriteFieldsSnoc([], f);
      assert [f] + row == [] + [f];
    } else {
      var init, last := row[..|row| - 1], row[|row| - 1];
      WriteFieldsFront(f, init);
      WriteFieldsSnoc([f] + init, last);
      WriteFieldsSnoc(init, last);
      assert [f] + row == [f] + init + [last] && row == init + [last];
      var a, b, c := QuoteField(f), WriteFields(init), QuoteField(last);
      assert a + "," + c == a + ("," + ("" + c));
      assert a + ("," + b) + "," + c == a + ("," + (b + "," + c));
    }
  }

  lemma FirstCharacter(rows: seq<Record>)
    ensures WriteRows(rows) != "" && WriteRows(rows)[0] == BOM <==> StartsWithBom(rows)
  {
    if rows != [] {
      var row, rest := rows[0], rows[1..];
      assert rows == [row] + rest;
      WriteRowsFront(row, rest);
      if row != [] {
        assert row == [row[0]] + row[1..];
        WriteFieldsFront(row[0], row[1..]);
      }
    }
  }

  /** Everything after the first field of the text. */
  function AfterFirst(rows: seq<Record>): string
    requires rows != [] && rows[0] != []
  {
    (if |rows[0]| == 1 then "" else "," + WriteFields(rows[0][1..])) + "\n" + WriteRows(rows[1..])
  }

  lemma FirstFieldThenRest(rows: seq<Record>)
    requires rows != [] && rows[0] != []
    ensures WriteRows(rows) == QuoteField(rows[0][0]) + AfterFirst(rows)
    ensures AfterFirst(rows) != "" && AfterFirst(rows)[0] != '"'
  {
    hide WriteRows, WriteFields, QuoteField;
    var f, more := rows[0][0], rows[0][1..];
    assert rows == [rows[0]] + rows[1..] && rows[0] == [f] + more;
    WriteRowsFront(rows[0], rows[1..]);
    WriteFieldsFront(f, more);
    var a, b, c := QuoteField(f), if more == [] then "" else "," + WriteFields(more), "\n" + WriteRows(rows[1..]);
    assert (a + b) + "\n" + WriteRows(rows[1..]) == a + (b + "\n" + WriteRows(rows[1..]));
  }

  lemma SameAfterFirst(rows: seq<Record>)
    requires StartsWithBom(rows)
    ensures AfterFirst(LosingBom(rows)) == AfterFirst(rows)
    ensures LosingBom(rows)[0] != [] && LosingBom(rows)[0][0] == rows[0][0][1..]
  {
    var less := LosingBom(rows);
    assert less[0][1..] == rows[0][1..] && less[1..] == rows[1..];
  }

  lemma UnquotedTail(f: string, tail: string)
    requires f != "" && !NeedsQuotes(f) && tail != "" && tail[0] != '"'
    ensures ReadAll(START, f[1..] + tail) == ReadAll(START, QuoteField(f[1..]) + tail)
  {
    SpecialsNeedQuotes(f);
    ReadPlain(START, f[1..], tail);
    ReadField(START, f[1..], tail);
    assert "" + f[1..] == f[1..];
  }

  /** A mark that survives quoting is taken for the file's own and lost. */
  lemma BomIsLost(rows: seq<Record>)
    requires StartsWithBom(rows)
    ensures Parse(WriteRows(rows)) == Kept(LosingBom(rows))
  {
    hide ReadAll, WriteRows, WriteFields, AfterFirst, Kept, WithoutBlanks;
    var f, less, tail := rows[0][0], LosingBom(rows), AfterFirst(rows);
    FirstFieldThenRest(rows);
    SameAfterFirst(rows);
    FirstFieldThenRest(less);
    assert WriteRows(rows) == f + tail && (f + tail)[1..] == f[1..] + tail;
    UnquotedTail(f, tail);
    BodyRoundTrip(less);
  }

  lemma {:induction false} KeptFront(row: Record, rows: seq<Record>)
    ensures Kept([row] + rows) == (if row == [] || row == [""] then [] else [row]) + Kept(rows)
    decreases |rows|
  {
    var all := [row] + rows;
    if rows == [] {
      assert all[..0] == [] && all == [row];
    } else {
      var n := |rows| - 1;
      assert all[..|all| - 1] == [row] + rows[..n] && all[|all| - 1] == rows[n];
      KeptFront(row, rows[..n]);
    }
  }

  lemma LosingBomShows(rows: seq<Record>)
    requires StartsWithBom(rows)
    ensures Kept(LosingBom(rows)) != Kept(rows)
  {
    var less := LosingBom(rows);
    assert rows == [rows[0]] + rows[1..] && less == [less[0]] + rows[1..];
    KeptFront(rows[0], rows[1..]);
    KeptFront(less[0], rows[1..]);
    assert |less[0][0]| < |rows[0][0]| && rows[0] != [""] && rows[0] != less[0];
    assert Kept(rows)[0] == rows[0];
    if less[0] == [""] { assert |Kept(less)| < |Kept(rows)|; } else { assert Kept(less)[0] == less[0]; }
  }

  /** Writing records and parsing the text gives them back, except those that are blank, for
      any contents of the fields: exactly if the text does not begin with a byte-order mark. */
  lemma RoundTripIff(rows: seq<Record>)
    ensures Parse(WriteRows(rows)) == Kept(rows) <==> !StartsWithBom(rows)
  {
    FirstCharacter(rows);
    if StartsWithBom(rows) {
      BomIsLost(rows);
      LosingBomShows(rows);
    } else {
      BodyRoundTrip(rows);
    }
  }

  /** A written field is quoted exactly if it holds a comma, a quote or a line end, or begins or
      ends in a blank; quotes inside are doubled. */
  lemma QuotedIff(f: string)
    ensures QuoteField(f) == (
      if (exists c :: c in f && (c == ',' || c == '"' || c == '\n' || c == '\r'))
         || (f != "" && (f[0] == ' ' || f[|f| - 1] == ' ')) then ['"'] + Escaped(f) + ['"'] else f)
  {
    if c :| c in f && (c == ',' || c == '"' || c == '\n' || c == '\r') { assert NeedsQuotes(f); }
  }

  /** Escaping goes part by part, doubles a quote and touches nothing else. */
  lemma {:induction false} EscapedDoubles(a: string, b: string)
    ensures Escaped(a + b) == Escaped(a) + Escaped(b) && Escaped(['"']) == ['"', '"']
  {
    assert Escaped("") == "" && ['"'][1..] == "";
    if a == "" {
      assert a + b == b;
    } else {
      EscapedDoubles(a[1..], b);
      assert (a + b)[1..] == a[1..] + b;
      JoinThree(if a[0] == '"' then ['"', '"'] else [a[0]], Escaped(a[1..]), Escaped(b));
    }
  }

  lemma JoinThree(a: string, b: string, c: string)
    ensures (a + b) + c == a + (b + c)
  {
  }

  lemma {:induction false} EscapedLeaves(a: string)
    requires '"' !in a
    ensures Escaped(a) == a
  {
    if a != "" {
      EscapedLeaves(a[1..]);
      assert a == [a[0]] + a[1..];
    }
  }

  // ---- text that others have written ----

  /** A field as it may be spelled: bare, without commas and line ends and not led by a quote, or
      in quotes, doubled inside, perhaps with more of the same kind behind them. */
  datatype Spelling = Bare(text: string) | InQuotes(text: string, more: string)

  /** A line with its end: LF, CR LF or CR. */
  datatype Line = Line(fields: seq<Spelling>, end: string)

  predicate NoEnds(t: string) {
    forall c :: c in t ==> c != ',' && c != '\n' && c != '\r'
  }

  predicate IsSpelling(f: Spelling) {
    match f
    case Bare(t) => NoEnds(t) && (t == "" || t[0] != '"')
    case InQuotes(_, more) => NoEnds(more) && (more == "" || more[0] != '"')
  }

  predicate IsLine(line: Line) {
    line.fields != [] && (forall f :: f in line.fields ==> IsSpelling(f)) && line.end in {"\n", "\r\n", "\r"}
  }

  function FieldText(f: Spelling): string {
    match f
    case Bare(t) => t
    case InQuotes(t, more) => ['"'] + Escaped(t) + ['"'] + more
  }

  function FieldValue(f: Spelling): string {
    match f
    case Bare(t) => t
    case InQuotes(t, more) => t + more
  }

  function FieldsText(fields: seq<Spelling>): string {
    if fields == [] then ""
    else FieldText(fields[0]) + if |fields| == 1 then "" else "," + FieldsText(fields[1..])
  }

  function FieldValues(fields: seq<Spelling>): (r: Record)
    ensures |r| == |fields|
  {
    seq(|fields|, i requires 0 <= i < |fields| => FieldValue(fields[i]))
  }

  function LinesText(lines: seq<Line>): string {
    if lines == [] then "" else FieldsText(lines[0].fields) + (lines[0].end + LinesText(lines[1..]))
  }

  function LineValues(lines: seq<Line>): (r: seq<Record>)
    ensures |r| == |lines|
  {
    seq(|lines|, i requires 0 <= i < |lines| => FieldValues(lines[i].fields))
  }

  /** No line that ends in CR is followed by an LF, which would make it end in CR LF. */
  predicate EndsApart(lines: seq<Line>, last: string) {
    lines == [] || (EndsApart(lines[1..], last) &&
                    (lines[0].end == "\r" && LinesText(lines[1..]) + last != "" ==>
                       (LinesText(lines[1..]) + last)[0] != '\n'))
  }

  lemma {:induction false} ReadMore(r: Reader, t: string, rest: string)
    requires !r.quoted && NoEnds(t) && (r.field != "" || t == "" || t[0] != '"')
    ensures ReadAll(r, t + rest) == ReadAll(r.(field := r.field + t), rest)
    decreases |t|
  {
    if t == "" {
      assert t + rest == rest && r.field + t == r.field;
    } else {
      var text := t + rest;
      assert t[0] in t && forall c :: c in t[1..] ==> c in t;
      assert text[0] == t[0] && text[1..] == t[1..] + rest;
      ReadMore(Push(r, t[0]), t[1..], rest);
      assert r.field + [t[0]] + t[1..] == r.field + t;
    }
  }

  /** What may stand behind a field: a comma, a line end, or nothing. */
  predicate IsBehind(rest: string) {
    rest == "" || rest[0] == ',' || rest[0] == '\n' || rest[0] == '\r'
  }

  lemma ReadOpening(r: Reader, tail: string)
    requires !r.quoted && r.field == ""
    ensures ReadAll(r, ['"'] + tail) == ReadAll(r.(quoted := true), tail)
  {
    assert (['"'] + tail)[1..] == tail;
  }

  lemma ReadClosing(r: Reader, tail: string)
    requires r.quoted && (tail == "" || tail[0] != '"')
    ensures ReadAll(r, ['"'] + tail) == ReadAll(r.(quoted := false), tail)
  {
    assert (['"'] + tail)[1..] == tail;
  }

  lemma ReadSpelling(r: Reader, f: Spelling, rest: string)
    requires !r.quoted && r.field == "" && IsSpelling(f) && IsBehind(rest)
    ensures ReadAll(r, FieldText(f) + rest) == ReadAll(r.(field := FieldValue(f)), rest)
  {
    hide ReadAll, Escaped;
    match f
    case Bare(t) =>
      ReadMore(r, t, rest);
      assert "" + t == t;
    case InQuotes(t, more) =>
      var tail := more + rest;
      var close := ['"'] + tail;
      assert FieldText(f) + rest == ['"'] + (Escaped(t) + close);
      ReadOpening(r, Escaped(t) + close);
      ReadEscaped(r.(quoted := true), t, close);
      assert "" + t == t;
      ReadClosing(r.(quoted := true, field := t), tail);
      ReadMore(r.(field := t), more, rest);
  }

  lemma FieldsTextStep(fields: seq<Spelling>, rest: string)
    requires |fields| > 1
    ensures FieldsText(fields) + rest == FieldText(fields[0]) + ("," + (FieldsText(fields[1..]) + rest))
  {
    hide FieldText;
    CommaBetween(FieldText(fields[0]), FieldsText(fields[1..]), rest);
  }

  lemma CommaBetween(a: string, b: string, c: string)
    ensures (a + ("," + b)) + c == a + ("," + (b + c))
  {
  }

  lemma {:induction false} ReadSpellings(r: Reader, fields: seq<Spelling>, rest: string)
    requires !r.quoted && r.field == "" && fields != [] && (forall f :: f in fields ==> IsSpelling(f))
    requires rest == "" || rest[0] == '\n' || rest[0] == '\r'
    ensures var n := |fields| - 1;
      ReadAll(r, FieldsText(fields) + rest) ==
      ReadAll(r.(field := FieldValue(fields[n]), row := r.row + FieldValues(fields[..n])), rest)
    decreases |fields|
  {
    hide ReadAll, IsSpelling, FieldText, FieldValue;
    var n := |fields| - 1;
    if n == 0 {
      assert FieldsText(fields) == FieldText(fields[0]) + "" == FieldText(fields[0]);
      ReadSpelling(r, fields[0], rest);
      assert r.row + FieldValues(fields[..0]) == r.row;
    } else {
      var tail := FieldsText(fields[1..]) + rest;
      FieldsTextStep(fields, rest);
      ReadSpelling(r, fields[0], "," + tail);
      ReadComma(r.(field := FieldValue(fields[0])), tail);
      ReadSpellings(EndField(r.(field := FieldValue(fields[0]))), fields[1..], rest);
      assert r.row + [FieldValue(fields[0])] + FieldValues(fields[1..][..n - 1]) == r.row + FieldValues(fields[..n]);
    }
  }

  lemma ReadEnd(r: Reader, end: string, rest: string)
    requires !r.quoted && end in {"\n", "\r\n", "\r"} && (end == "\r" && rest != "" ==> rest[0] != '\n')
    ensures ReadAll(r, end + rest) == ReadAll(EndRow(r), rest)
  {
    assert (end + rest)[|end|..] == rest;
  }

  lemma {:induction false} ReadLines(before: seq<Record>, lines: seq<Line>, last: string)
    requires (forall line :: line in lines ==> IsLine(line)) && EndsApart(lines, last)
    ensures ReadAll(Reader("", [], before, false), LinesText(lines) + last) ==
      ReadAll(Reader("", [], before + LineValues(lines), false), last)
    decreases |lines|
  {
    hide ReadAll, FieldsText, FieldValues;
    if lines == [] {
      assert LinesText(lines) + last == last && before + LineValues(lines) == before;
    } else {
      var line, more := lines[0], lines[1..];
      var tail := LinesText(more) + last;
      assert IsLine(line);
      assert LinesText(lines) + last == FieldsText(line.fields) + (line.end + tail);
      ReadLine(before, line, tail);
      ReadLines(before + [FieldValues(line.fields)], more, last);
      assert before + [FieldValues(line.fields)] + LineValues(more) == before + LineValues(lines);
    }
  }

  lemma ReadLine(before: seq<Record>, line: Line, tail: string)
    requires IsLine(line) && (line.end == "\r" && tail != "" ==> tail[0] != '\n')
    ensures ReadAll(Reader("", [], before, false), FieldsText(line.fields) + (line.end + tail)) ==
      ReadAll(Reader("", [], before + [FieldValues(line.fields)], false), tail)
  {
    hide ReadAll, FieldsText, IsSpelling;
    var n := |line.fields| - 1;
    var values := FieldValues(line.fields[..n]);
    ReadSpellings(Reader("", [], before, false), line.fields, line.end + tail);
    assert [] + values == values;
    ReadEnd(Reader(FieldValue(line.fields[n]), values, before, false), line.end, tail);
    assert values + [FieldValue(line.fields[n])] == FieldValues(line.fields);
  }

  lemma LastLineFinishes(rows: seq<Record>, fields: seq<Spelling>)
    requires fields != [] && (forall f :: f in fields ==> IsSpelling(f))
    ensures Finished(ReadAll(Reader("", [], rows, false), FieldsText(fields))) ==
      if FieldValues(fields) == [""] then rows else rows + [FieldValues(fields)]
  {
    hide IsSpelling, FieldsText, FieldValue;
    var n := |fields| - 1;
    var values := FieldValues(fields[..n]);
    ReadSpellings(Reader("", [], rows, false), fields, "");
    assert FieldsText(fields) + "" == FieldsText(fields) && [] + values == values;
    var end := Reader(FieldValue(fields[n]), values, rows, false);
    assert ReadAll(end, "") == end && values + [end.field] == FieldValues(fields);
    assert FieldValues(fields) == [""] <==> end.field == "" && values == [] by {
      assert FieldValues(fields)[n] == end.field && |values| == n;
    }
  }

  lemma {:induction false} KeptIsWithoutBlanks(rows: seq<Record>)
    requires forall i :: 0 <= i < |rows| ==> rows[i] != []
    ensures WithoutBlanks(rows) == Kept(rows)
  {
    if rows != [] {
      KeptIsWithoutBlanks(rows[..|rows| - 1]);
    }
  }

  /** The parser reads every spelling of the records: with or without quotes, with any line ends,
      the last of which may be missing, and after a byte-order mark. */
  lemma ReadsAnySpelling(lines: seq<Line>, last: seq<Spelling>, mark: bool)
    requires (forall line :: line in lines ==> IsLine(line)) && (forall f :: f in last ==> IsSpelling(f))
    requires EndsApart(lines, FieldsText(last))
    requires !mark ==> var text := LinesText(lines) + FieldsText(last); text == "" || text[0] != BOM
    ensures Parse((if mark then [BOM] else "") + (LinesText(lines) + FieldsText(last))) ==
      Kept(LineValues(lines) + if last == [] then [] else [FieldValues(last)])
  {
    hide ReadAll, FieldsText, FieldValues, Kept, WithoutBlanks, IsLine, IsSpelling, EndsApart, LinesText;
    var body, rows := LinesText(lines) + FieldsText(last), LineValues(lines);
    var text := (if mark then [BOM] else "") + body;
    assert WithoutBom(text) == body by { assert mark ==> text[1..] == body; }
    ReadLines([], lines, FieldsText(last));
    assert [] + rows == rows;
    LinesHoldFields(lines);
    if last == [] {
      NothingLeft(rows);
      assert rows + [] == rows;
      KeptIsWithoutBlanks(rows);
    } else {
      LastLineFinishes(rows, last);
      KeptIsWithoutBlanks(rows);
      KeptIsWithoutBlanks(rows + [FieldValues(last)]);
      KeptDropsBlank(rows, FieldValues(last));
    }
  }

  lemma NothingLeft(rows: seq<Record>)
    ensures Finished(ReadAll(Reader("", [], rows, false), FieldsText([]))) == rows
  {
  }

  lemma LinesHoldFields(lines: seq<Line>)
    requires forall line :: line in lines ==> IsLine(line)
    ensures forall i :: 0 <= i < |lines| ==> LineValues(lines)[i] != []
  {
    forall i | 0 <= i < |lines| ensures LineValues(lines)[i] != [] { assert IsLine(lines[i]); }
  }

  lemma KeptDropsBlank(rows: seq<Record>, row: Record)
    ensures row == [""] ==> Kept(rows + [row]) == Kept(rows)
  {
    assert (rows + [row])[..|rows|] == rows;
  }

  /** A quote that is never closed takes the rest of the text, line ends and commas included. */
  lemma OpenQuoteTakesTheRest(t: string)
    requires t != ""
    ensures Parse(['"'] + Escaped(t)) == [[t]]
  {
    hide ReadAll, Escaped;
    ReadOpening(START, Escaped(t));
    ReadToTheEnd(START.(quoted := true), t);
    var end := Reader(t, [], [], true);
    assert "" + t == t && WithoutBom(['"'] + Escaped(t)) == ['"'] + Escaped(t);
    assert ReadAll(START, ['"'] + Escaped(t)) == end;
    assert [] + [t] == [t] && [] + [[t]] == [[t]] && Finished(end) == [[t]];
    assert WithoutBlanks([]) == [] && [[t]][..0] == [];
  }

  lemma {:induction false} ReadToTheEnd(r: Reader, f: string)
    requires r.quoted
    ensures ReadAll(r, Escaped(f)) == r.(field := r.field + f)
    decreases |f|
  {
    if f == "" {
      assert r.field + f == r.field;
    } else {
      ReadEscapedHead(r, f, "");
      assert Escaped(f) + "" == Escaped(f) && Escaped(f[1..]) + "" == Escaped(f[1..]);
      ReadToTheEnd(Push(r, f[0]), f[1..]);
      assert r.field + [f[0]] + f[1..] == r.field + f;
    }
  }
}
