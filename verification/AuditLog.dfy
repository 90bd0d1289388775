/**
 `get_audit_log_rows`: the reader of audit records in a system log. A record may span
 several lines, because the operation it quotes may; it ends with a line that ends in a
 double quote. The file is modelled as the text still unread.
 */
module AuditLog {
  import opened Text

  const SEP := "\", \""
  const OPEN := ": \""
  const MARKER_WINDOW := 120

  /** A yielded row; `time` is the parsed first token of the line (`date` is its day). */
  datatype Row = Row(time: int, node: string, category: string, consistency: string, table: string,
                     keyspace: string, operation: string, source: string, username: string, error: bool)

  /** How the generator stops: normally, by an uncaught exception, or never. */
  datatype Ending = Finished | Raised | Hangs

  datatype Query = Query(category: string, operation: string, limitRows: int)

  type TimeParser = string -> Option<int>

  function Window(line: string): (w: string) {
    if |line| <= MARKER_WINDOW then line else line[..MARKER_WINDOW]
  }

  predicate IsAuditLine(line: string) {
    Contains(Window(line), "!NOTICE") && Contains(Window(line), "scylla-audit")
  }

  /** Both markers stand within the first 120 characters. */
  lemma IsAuditLineIff(line: string)
    ensures IsAuditLine(line) <==>
      && (exists i :: OccursAt(line, "!NOTICE", i) && i + 7 <= 120)
      && (exists i :: OccursAt(line, "scylla-audit", i) && i + 12 <= 120)
  {
    WindowShows(line, "!NOTICE");
    WindowShows(line, "scylla-audit");
  }

  lemma WindowShows(line: string, marker: string)
    ensures Contains(Window(line), marker) <==> exists i :: OccursAt(line, marker, i) && i + |marker| <= 120
  {
    forall i ensures OccursAt(Window(line), marker, i) <==> OccursAt(line, marker, i) && i + |marker| <= 120 {
      if 0 <= i && i + |marker| <= |Window(line)| {
        assert Window(line)[i..i + |marker|] == line[i..i + |marker|];
      }
    }
  }

  predicate IsSpace(c: char) {
    c == ' ' || c == '\t' || c == '\n' || c == '\r'
  }

  /** The last character of `s.strip()`, if any is left. */
  function LastOfStripped(s: string): (c: Option<char>)
    ensures c.None? <==> forall i :: 0 <= i < |s| ==> IsSpace(s[i])
  {
    if |s| == 0 then None
    else if IsSpace(s[|s| - 1]) then LastOfStripped(s[..|s| - 1])
    else Some(s[|s| - 1])
  }

  /** What becomes of the next line or record: nothing, an exception, an endless loop, or a row. */
  datatype Verdict = Skip | Crash | Hang | Emit(row: Row)

  /** What follows the first `: "` of the line, or the whole line without one. */
  function AuditData(line: string): (data: string) {
    var k := Find(line, OPEN, 0);
    if k == -1 then line else line[k + |OPEN|..]
  }

  /** The pieces of one complete record: filter them and build the row. An empty filter accepts everything. */
  function Judge(f: seq<string>, time: Option<int>, q: Query): (v: Verdict)
    // the comparison of one character with 'true' never succeeds
    ensures v.Emit? ==> !v.row.error
  {
    if |f| != 9 then Skip
    else if q.category != "" && f[1] != q.category then Skip
    else if q.operation != "" && f[5] != q.operation then Skip
    else
      var last := LastOfStripped(f[8]);
      if time.None? || last.None? then Crash
      else Emit(Row(time.value, f[0], f[1], f[2], f[3], f[4], f[5], f[6], f[7], [last.value] == "true"))
  }

  function Interpret(line: string, parse: TimeParser, q: Query): (v: Verdict) {
    Judge(Split(AuditData(line), SEP), parse(Split(line, " ")[0]), q)
  }

  /** The joining loop: extend the record by whole lines until its last but one character is a quote. */
  function RecordEnd(text: string, end: nat): (r: Option<nat>)
    requires 2 <= end <= |text|
    ensures r.Some? ==> end <= r.value <= |text|
    decreases |text| - end
  {
    if text[end - 2] == '"' then Some(end)
    else if end == |text| then None
    else RecordEnd(text, LineEnd(text, end))
  }

  /** How much of the unread text the next line or record takes, and what becomes of it. */
  function NextItem(text: string, parse: TimeParser, q: Query): (r: (nat, Verdict))
    requires text != ""
    ensures 0 < r.0 <= |text|
  {
    var e := LineEnd(text, 0);
    if !IsAuditLine(text[..e]) then (e, Skip)
    else
      AuditLineIsLong(text[..e]);
      match RecordEnd(text, e)
      case None => (|text|, Hang)
      case Some(end) => (end, Interpret(text[..end], parse, q))
  }

  /** The rows read from `text` when `found` rows have been yielded before. */
  function ReadRows(text: string, parse: TimeParser, q: Query, found: nat): (r: (seq<Row>, Ending))
    decreases |text|
  {
    if text == "" then ([], Finished)
    else
      var (used, v) := NextItem(text, parse, q);
      match v
      case Hang => ([], Hangs)
      case Crash => ([], Raised)
      case Skip => ReadRows(text[used..], parse, q, found)
      case Emit(row) =>
        if found + 1 >= q.limitRows then ([row], Finished)
        else
          var rest := ReadRows(text[used..], parse, q, found + 1);
          ([row] + rest.0, rest.1)
  }

  lemma AuditLineIsLong(line: string)
    requires IsAuditLine(line)
    ensures |line| >= 12
  {
    var i := Find(Window(line), "scylla-audit", 0);
    assert OccursAt(Window(line), "scylla-audit", i);
  }

  /** Read one line, and the rest of the record if it starts one. */
  method ReadItem(text: string, parse: TimeParser, q: Query) returns (used: nat, v: Verdict)
    requires text != ""
    ensures (used, v) == NextItem(text, parse, q)
  {
    var e := LineEnd(text, 0);
    if !IsAuditLine(text[..e]) {
      return e, Skip;
    }
    AuditLineIsLong(text[..e]);
    var end := e;
    while text[end - 2] != '"'
      invariant e <= end <= |text|
      invariant RecordEnd(text, e) == RecordEnd(text, end)
      decreases |text| - end
    {
      if end == |text| {
        return |text|, Hang;
      }
      end := LineEnd(text, end);
    }
    used, v := end, Interpret(text[..end], parse, q);
  }

  lemma ReadNothing(parse: TimeParser, q: Query)
    ensures forall found: nat :: ReadRows("", parse, q, found) == ([], Finished)
  {
  }

  lemma ReadStep(text: string, parse: TimeParser, q: Query, found: nat)
    requires text != ""
    ensures var (used, v) := NextItem(text, parse, q);
      ReadRows(text, parse, q, found) ==
        match v
        case Hang => ([], Hangs)
        case Crash => ([], Raised)
        case Skip => ReadRows(text[used..], parse, q, found)
        case Emit(row) =>
          if found + 1 >= q.limitRows then ([row], Finished)
          else ([row] + ReadRows(text[used..], parse, q, found + 1).0, ReadRows(text[used..], parse, q, found + 1).1)
  {
    hide NextItem;
  }

  method GetAuditLogRows(text: string, parse: TimeParser, q: Query) returns (rows: seq<Row>, ending: Ending)
    ensures rows == ReadRows(text, parse, q, 0).0 && ending == ReadRows(text, parse, q, 0).1
  {
    hide NextItem, ReadRows;
    ReadNothing(parse, q);
    var rest := text;
    rows := [];
    while rest != ""
      invariant ReadRows(text, parse, q, 0).0 == rows + ReadRows(rest, parse, q, |rows|).0
      invariant ReadRows(text, parse, q, 0).1 == ReadRows(rest, parse, q, |rows|).1
      decreases |rest|
    {
      var used, v := ReadItem(rest, parse, q);
      ReadStep(rest, parse, q, |rows|);
      if v.Hang? {
        return rows, Hangs;
      } else if v.Crash? {
        return rows, Raised;
      } else if v.Emit? {
        rows := rows + [v.row];
        if |rows| >= q.limitRows {
          return rows, Finished;
        }
      }
      rest := rest[used..];
    }
    ending := Finished;
  }

  // ---- The writer's side

  /** What the server writes for one audited operation. */
  datatype Audited = Audited(node: string, category: string, consistency: string, table: string, keyspace: string,
                             operation: string, source: string, username: string, error: string)

  /** The order in which the parts are written. */
  function Fields(a: Audited): (f: seq<string>)
    ensures |f| == 9
  {
    [a.node, a.category, a.consistency, a.table, a.keyspace, a.operation, a.source, a.username, a.error]
  }

  /**
   One printed entry of a log: a line of no interest, an audit record, one whose first token is no time stamp,
   or one whose fields do not come out as nine pieces.
   */
  datatype Entry = Plain(line: string) | Record(header: string, audited: Audited)
                 | Unstamped(header: string, audited: Audited) | Garbled(header: string, fields: seq<string>)

  function PrintRecord(header: string, fields: seq<string>): (s: string) {
    header + OPEN + Join(fields, SEP) + "\"\n"
  }

  function PrintEntry(e: Entry): (s: string) {
    match e
    case Plain(line) => line + "\n"
    case Record(header, audited) => PrintRecord(header, Fields(audited))
    case Unstamped(header, audited) => PrintRecord(header, Fields(audited))
    case Garbled(header, fields) => PrintRecord(header, fields)
  }

  function Print(entries: seq<Entry>): (s: string) {
    if entries == [] then "" else PrintEntry(entries[0]) + Print(entries[1..])
  }

  /** No separator can be seen inside the field or across its closing quote. */
  predicate Separable(f: string) {
    !Contains(f + "\"", SEP)
  }

  /** No line of the field, opening quote included, ends in a quote. */
  predicate Unbroken(f: string) {
    !Contains("\"" + f, "\"\n")
  }

  predicate HeaderShape(header: string) {
    && '\n' !in header
    && !Contains(header, OPEN)
    && IsAuditLine(header)
    && Contains(header, " ")
  }

  predicate GoodHeader(header: string, parse: TimeParser) {
    HeaderShape(header) && parse(Split(header, " ")[0]).Some?
  }

  predicate GoodFields(audited: Audited) {
    forall f :: f in Fields(audited) ==> Separable(f) && Unbroken(f)
  }

  /** How much of a printed record the joining loop takes. */
  function Joined(rec: string): (end: nat) {
    if LineEnd(rec, 0) < 2 then |rec|
    else match RecordEnd(rec, LineEnd(rec, 0)) { case None => |rec| case Some(end) => end }
  }

  /** What is joined does not come apart in nine pieces, and no line after it looks like the start of a record. */
  ghost predicate GoodGarbled(header: string, fields: seq<string>) {
    && HeaderShape(header) && fields != []
    && var rec := PrintRecord(header, fields);
    && Joined(rec) <= |rec|
    && |Split(AuditData(rec[..Joined(rec)]), SEP)| != 9
    && forall i :: Joined(rec) <= i && IsLineStart(rec, i) ==> !IsAuditLine(LineAt(rec, i))
  }

  ghost predicate GoodEntry(e: Entry, parse: TimeParser) {
    match e
    case Plain(line) => '\n' !in line && !IsAuditLine(line + "\n")
    case Record(header, audited) => GoodHeader(header, parse) && GoodFields(audited)
    case Unstamped(header, audited) =>
      HeaderShape(header) && parse(Split(header, " ")[0]).None? && GoodFields(audited)
    case Garbled(header, fields) => GoodGarbled(header, fields)
  }

  ghost predicate GoodLog(entries: seq<Entry>, parse: TimeParser) {
    forall i :: 0 <= i < |entries| ==> GoodEntry(entries[i], parse)
  }

  /** The entry makes the reader raise. */
  predicate Stuck(e: Entry, q: Query) {
    e.Unstamped? && Accepts(q, e.audited)
  }

  ghost predicate NoneStuck(entries: seq<Entry>, q: Query) {
    forall i :: 0 <= i < |entries| ==> !Stuck(entries[i], q)
  }

  predicate Accepts(q: Query, a: Audited) {
    (q.category == "" || a.category == q.category) && (q.operation == "" || a.operation == q.operation)
  }

  /** The row a record should give; whatever the record says of an error, the row says false. */
  function RowOf(header: string, a: Audited, parse: TimeParser): (row: Row)
    requires GoodHeader(header, parse)
  {
    Row(parse(Split(header, " ")[0]).value, a.node, a.category, a.consistency, a.table, a.keyspace, a.operation,
        a.source, a.username, false)
  }

  /** The records a query asks for, in log order. */
  ghost function Selected(entries: seq<Entry>, parse: TimeParser, q: Query): (rows: seq<Row>)
    requires GoodLog(entries, parse)
  {
    if entries == [] then []
    else
      assert GoodEntry(entries[0], parse);
      var rest := Selected(entries[1..], parse, q);
      match entries[0]
      case Record(header, audited) => if Accepts(q, audited) then [RowOf(header, audited, parse)] + rest else rest
      case _ => rest
  }

  function FirstRows(rows: seq<Row>, n: int): (r: seq<Row>) {
    if rows == [] || |rows| <= n then rows else if n <= 1 then rows[..1] else rows[..n]
  }

  // ---- Splitting a record

  lemma SeparatorAfterField(f: string, rest: string)
    ensures Separable(f) ==> Find(f + SEP + rest, SEP, 0) == |f|
    ensures !Separable(f) ==> 0 <= Find(f + SEP + rest, SEP, 0) < |f|
  {
    var s := f + SEP + rest;
    assert s[..|f| + 1] == f + "\"";
    assert OccursAt(s, SEP, |f|);
    forall i | 0 <= i < |f| ensures OccursAt(s, SEP, i) <==> OccursAt(f + "\"", SEP, i) {
      SeparatorInsideField(f, SEP + rest, i);
    }
  }

  /** A separator that starts inside a field is over by the field's closing quote. */
  lemma SeparatorInsideField(f: string, tail: string, i: int)
    requires 0 <= i < |f| && |tail| >= 1 && tail[0] == '"'
    ensures OccursAt(f + tail, SEP, i) <==> OccursAt(f + "\"", SEP, i)
  {
    var s := f + tail;
    if i + 4 <= |f| + 1 {
      assert s[i..i + 4] == (f + "\"")[i..i + 4];
    } else if i + 4 <= |s| {
      assert s[i..i + 4][|f| - i] == '"';
      assert SEP[|f| - i] != '"';
    }
  }

  lemma NoSeparatorInLastField(f: string)
    ensures Separable(f) ==> Find(f + "\"\n", SEP, 0) == -1
    ensures !Separable(f) ==> 0 <= Find(f + "\"\n", SEP, 0) < |f|
  {
    forall i | 0 <= i ensures OccursAt(f + "\"\n", SEP, i) <==> OccursAt(f + "\"", SEP, i) {
      if i < |f| { SeparatorInsideField(f, "\"\n", i); }
    }
  }

  /** `fields` with the closing quote and newline still on the last one: what splitting should give. */
  function RawPieces(fields: seq<string>): (p: seq<string>)
    requires |fields| > 0
  {
    fields[..|fields| - 1] + [fields[|fields| - 1] + "\"\n"]
  }

  ghost predicate AllSeparable(fields: seq<string>) {
    forall i :: 0 <= i < |fields| ==> Separable(fields[i])
  }

  /** Splitting recovers the fields exactly when every field is separable. */
  lemma {:induction false} SplitRecovers(fields: seq<string>)
    requires |fields| > 0
    ensures Split(Join(fields, SEP) + "\"\n", SEP) == RawPieces(fields) <==> AllSeparable(fields)
  {
    hide Find, Separable;
    if |fields| == 1 {
      NoSeparatorInLastField(fields[0]);
    } else {
      var rest := Join(fields[1..], SEP) + "\"\n";
      SplitFirst(fields[0], rest, RawPieces(fields[1..]));
      SplitRecovers(fields[1..]);
      assert Join(fields, SEP) + "\"\n" == fields[0] + SEP + rest;
      assert RawPieces(fields) == [fields[0]] + RawPieces(fields[1..]);
      assert AllSeparable(fields) <==> Separable(fields[0]) && AllSeparable(fields[1..]) by {
        assert fields == [fields[0]] + fields[1..];
      }
    }
  }

  lemma SplitFirst(f: string, rest: string, pieces: seq<string>)
    ensures Split(f + SEP + rest, SEP) == [f] + pieces <==> Separable(f) && Split(rest, SEP) == pieces
  {
    var s := f + SEP + rest;
    SeparatorAfterField(f, rest);
    var k := Find(s, SEP, 0);
    assert Split(s, SEP) == [s[..k]] + Split(s[k + 4..], SEP);
    assert Split(s, SEP)[1..] == Split(s[k + 4..], SEP);
    assert ([f] + pieces)[1..] == pieces;
    if Separable(f) {
      assert s[..k] == f && s[k + 4..] == rest;
    } else {
      assert Split(s, SEP)[0] != f;
    }
  }

  // ---- Joining the lines of a record

  const CLOSING := "\"\n"

  /** Joining stops at the record's end exactly when no earlier line of it ends in a quote. */
  lemma {:induction false} JoinStops(rec: string, tail: string, end: nat)
    requires 2 <= end <= |rec| && rec[end - 1] == '\n' && OccursAt(rec, CLOSING, |rec| - 2)
    ensures RecordEnd(rec + tail, end) == Some(|rec|)
       <==> forall i :: end - 2 <= i < |rec| - 2 ==> !OccursAt(rec, CLOSING, i)
    decreases |rec| - end
  {
    var text := rec + tail;
    if end < |rec| {
      if rec[end - 2] == '"' {
        assert OccursAt(rec, CLOSING, end - 2);
      } else {
        LineEndBound(text, end, |rec| - 1);
        var e := LineEnd(text, end);
        JoinStops(rec, tail, e);
        forall i | end - 2 <= i < e - 2 ensures !OccursAt(rec, CLOSING, i) {
          if i >= end { LineHasNoInnerNewline(text, end, i + 1); }
        }
      }
    }
  }

  lemma ClosingAcross(a: string, b: string)
    requires b != "" && b[0] != '\n'
    ensures Contains(a + b, CLOSING) <==> Contains(a, CLOSING) || Contains(b, CLOSING)
  {
    var s := a + b;
    forall i | 0 <= i ensures OccursAt(s, CLOSING, i) <==> OccursAt(a, CLOSING, i) || OccursAt(b, CLOSING, i - |a|) {
      if i + 2 <= |a| {
        assert s[i..i + 2] == a[i..i + 2];
      } else if |a| <= i && i + 2 <= |s| {
        assert s[i..i + 2] == b[i - |a|..i - |a| + 2];
      } else if i + 2 <= |s| {
        assert s[i..i + 2][1] == b[0];
      }
    }
    forall i | OccursAt(b, CLOSING, i) ensures OccursAt(s, CLOSING, i + |a|) {
      assert s[i + |a|..i + |a| + 2] == b[i..i + 2];
    }
  }

  function Quoted(fields: seq<string>): (s: string) {
    "\"" + Join(fields, SEP) + "\""
  }

  ghost predicate AllUnbroken(fields: seq<string>) {
    forall i :: 0 <= i < |fields| ==> Unbroken(fields[i])
  }

  lemma QuotedStep(fields: seq<string>)
    requires |fields| > 1
    ensures Quoted(fields) == ("\"" + fields[0]) + ("\", " + Quoted(fields[1..]))
  {
  }

  /** Inside the quoted fields a quote meets a newline only where a field brings them together. */
  lemma {:induction false} QuotedClosing(fields: seq<string>)
    requires |fields| > 0
    ensures Contains(Quoted(fields), CLOSING) <==> !AllUnbroken(fields)
  {
    hide Contains, Find, Quoted;
    var open := "\"" + fields[0];
    if |fields| == 1 {
      ClosingAcross(open, "\"");
      QuotedOne(fields);
    } else {
      var rest := Quoted(fields[1..]);
      QuotedClosing(fields[1..]);
      QuoteFirst(fields[1..]);
      ClosingAcross("\", ", rest);
      ClosingAcross(open, "\", " + rest);
      QuotedStep(fields);
      NoClosing();
      assert fields == [fields[0]] + fields[1..];
      assert AllUnbroken(fields) <==> Unbroken(fields[0]) && AllUnbroken(fields[1..]);
    }
  }

  lemma QuoteFirst(fields: seq<string>)
    ensures Quoted(fields) != "" && Quoted(fields)[0] == '"'
  {
  }

  lemma QuotedOne(fields: seq<string>)
    requires |fields| == 1
    ensures Quoted(fields) == ("\"" + fields[0]) + "\""
    ensures !Contains("\"", CLOSING)
  {
  }

  lemma NoClosing()
    ensures !Contains("\", ", CLOSING)
  {
    forall i | 0 <= i < 3 ensures !OccursAt("\", ", CLOSING, i) {
      assert i < 2 ==> "\", "[i + 1] != '\n';
    }
  }

  /** The record's text has an early line that ends in a quote exactly when a field is broken. */
  lemma RecordClosing(header: string, fields: seq<string>)
    requires '\n' !in header && |fields| > 0
    ensures var rec := PrintRecord(header, fields);
      (forall i :: 0 <= i < |rec| - 2 ==> !OccursAt(rec, CLOSING, i)) <==> AllUnbroken(fields)
  {
    var rec := PrintRecord(header, fields);
    var front := header + ": ";
    ClosingAcross(front, Quoted(fields));
    QuotedClosing(fields);
    QuoteFirst(fields);
    var body := front + Quoted(fields);
    assert rec == body + "\n";
    forall i | 0 <= i < |rec| - 2 ensures OccursAt(rec, CLOSING, i) <==> OccursAt(body, CLOSING, i) {
      assert rec[i..i + 2] == body[i..i + 2];
    }
    forall i | 0 <= i ensures !OccursAt(front, CLOSING, i) {
      if i + 2 <= |front| { assert front[i..i + 2][1] == front[i + 1]; }
    }
  }

  /** A printed record is read whole, whatever follows it, exactly when none of its fields is broken. */
  lemma RecordReadWhole(header: string, fields: seq<string>, tail: string)
    requires '\n' !in header && |fields| > 0
    ensures var rec := PrintRecord(header, fields);
      var e := LineEnd(rec + tail, 0);
      && |header| + 3 < e <= |rec|
      && (RecordEnd(rec + tail, e) == Some(|rec|) <==> AllUnbroken(fields))
  {
    hide Join, RecordEnd, AllUnbroken;
    var rec := PrintRecord(header, fields);
    var text := rec + tail;
    LineEndBound(text, 0, |rec| - 1);
    var e := LineEnd(text, 0);
    assert text[e - 1] == '\n' == rec[e - 1];
    assert rec == (header + OPEN) + (Join(fields, SEP) + "\"\n");
    assert forall i :: 0 <= i < |header| + 3 ==> rec[i] == (header + OPEN)[i] && rec[i] != '\n';
    assert rec[|rec| - 2..] == CLOSING;
    JoinStops(rec, tail, e);
    RecordClosing(header, fields);
    forall i | 0 <= i < e - 2 ensures !OccursAt(rec, CLOSING, i) {
      LineHasNoInnerNewline(text, 0, i + 1);
    }
  }

  // ---- Interpreting a printed record

  lemma HeaderEndsAtOpen(header: string, data: string)
    requires !Contains(header, OPEN)
    ensures AuditData(header + OPEN + data) == data
  {
    var line := header + OPEN + data;
    assert OccursAt(line, OPEN, |header|);
    forall i | 0 <= i < |header| ensures !OccursAt(line, OPEN, i) {
      if i + 3 <= |header| {
        assert !OccursAt(header, OPEN, i) && line[i..i + 3] == header[i..i + 3];
      } else {
        assert line[|header|] == ':' && line[i..i + 3][|header| - i] == ':' && OPEN[|header| - i] != ':';
      }
    }
    assert line[|header| + 3..] == data;
  }

  lemma WithoutOpen(line: string)
    requires !Contains(line, OPEN)
    ensures AuditData(line) == line
  {
  }

  lemma FirstTokenOfHeader(header: string, rest: string)
    requires Contains(header, " ")
    ensures Split(header + rest, " ")[0] == Split(header, " ")[0]
  {
    var k := Find(header, " ", 0);
    var line := header + rest;
    forall i | 0 <= i <= k ensures OccursAt(line, " ", i) <==> OccursAt(header, " ", i) {
      assert line[i..i + 1] == header[i..i + 1];
    }
    assert Find(line, " ", 0) == k;
    assert line[..k] == header[..k];
  }

  /** What becomes of a printed record by its own fields and its own time. */
  function Outcome(a: Audited, time: Option<int>, q: Query): (v: Verdict) {
    if !Accepts(q, a) then Skip
    else if time.None? then Crash
    else Emit(Row(time.value, a.node, a.category, a.consistency, a.table, a.keyspace, a.operation, a.source, a.username,
                  false))
  }

  lemma InterpretsRecord(header: string, audited: Audited, parse: TimeParser, q: Query)
    requires HeaderShape(header) && AllSeparable(Fields(audited))
    ensures Interpret(PrintRecord(header, Fields(audited)), parse, q)
         == Outcome(audited, parse(Split(header, " ")[0]), q)
  {
    hide Find, OccursAt, IsAuditLine, PrintRecord, Split, Judge, Join, Fields;
    var fields := Fields(audited);
    var rec, data := PrintRecord(header, fields), Join(fields, SEP) + "\"\n";
    PrintedParts(header, fields);
    HeaderEndsAtOpen(header, data);
    SplitRecovers(fields);
    FirstTokenOfHeader(header, OPEN + data);
    JudgeRawPieces(audited, parse(Split(header, " ")[0]), q);
  }

  lemma PrintedParts(header: string, fields: seq<string>)
    ensures PrintRecord(header, fields) == header + OPEN + (Join(fields, SEP) + "\"\n")
    ensures PrintRecord(header, fields) == header + (OPEN + (Join(fields, SEP) + "\"\n"))
  {
  }

  lemma JudgeRawPieces(a: Audited, time: Option<int>, q: Query)
    ensures Judge(RawPieces(Fields(a)), time, q) == Outcome(a, time, q)
  {
    var f := RawPieces(Fields(a));
    assert f[8] == a.error + "\"\n" && !IsSpace(f[8][|a.error|]);
  }

  /** Nine pieces that the filters accept raise exactly if the time does not parse or the ninth is blank. */
  lemma CrashIff(f: seq<string>, time: Option<int>, q: Query)
    ensures Judge(f, time, q) == Crash <==>
      && |f| == 9 && (q.category == "" || f[1] == q.category) && (q.operation == "" || f[5] == q.operation)
      && (time.None? || forall i :: 0 <= i < |f[8]| ==> IsSpace(f[8][i]))
  {
  }

  /** A record of any other number of pieces is passed over, whatever its time and the query. */
  lemma OtherPiecesAreSkipped(f: seq<string>, time: Option<int>, q: Query)
    requires |f| != 9
    ensures Judge(f, time, q) == Skip
  {
  }

  lemma WindowGrows(header: string, rest: string, marker: string)
    requires Contains(Window(header), marker)
    ensures Contains(Window(header + rest), marker)
  {
    var i := Find(Window(header), marker, 0);
    assert OccursAt(Window(header), marker, i);
    assert Window(header + rest)[i..i + |marker|] == Window(header)[i..i + |marker|];
    assert OccursAt(Window(header + rest), marker, i);
  }

  /** The reader takes a printed entry whole and judges it by its own fields, whatever follows it. */
  lemma EntryIsOneItem(e: Entry, tail: string, parse: TimeParser, q: Query)
    requires GoodEntry(e, parse) && !e.Garbled?
    ensures NextItem(PrintEntry(e) + tail, parse, q) == (|PrintEntry(e)|,
      match e
      case Record(header, audited) => if Accepts(q, audited) then Emit(RowOf(header, audited, parse)) else Skip
      case Unstamped(_, audited) => if Accepts(q, audited) then Crash else Skip
      case _ => Skip)
  {
    hide Interpret, PrintRecord, IsAuditLine, RecordEnd, Separable, Unbroken, Fields;
    var text := PrintEntry(e) + tail;
    if e.Plain? {
      assert text == e.line + "\n" + tail;
      LineEndIs(text, 0, |e.line|);
      assert text[..|e.line| + 1] == e.line + "\n";
    } else {
      RecordIsOneItem(e.header, e.audited, tail, parse, q);
    }
  }

  lemma RecordIsOneItem(header: string, audited: Audited, tail: string, parse: TimeParser, q: Query)
    requires HeaderShape(header) && GoodFields(audited)
    ensures var rec := PrintRecord(header, Fields(audited));
      NextItem(rec + tail, parse, q) == (|rec|, Outcome(audited, parse(Split(header, " ")[0]), q))
  {
    hide Interpret, PrintRecord, IsAuditLine, RecordEnd, Separable, Unbroken, Fields, Outcome;
    var fields, rec := Fields(audited), PrintRecord(header, Fields(audited));
    assert forall i :: 0 <= i < |fields| ==> fields[i] in fields;
    RecordReadWhole(header, fields, tail);
    InterpretsRecord(header, audited, parse, q);
    FirstLineIsAudit(header, fields, tail);
    assert (rec + tail)[..|rec|] == rec;
  }

  lemma FirstLineIsAudit(header: string, fields: seq<string>, tail: string)
    requires '\n' !in header && IsAuditLine(header) && |fields| > 0
    ensures var text := PrintRecord(header, fields) + tail; IsAuditLine(text[..LineEnd(text, 0)])
  {
    hide RecordEnd, Find, OccursAt;
    var text := PrintRecord(header, fields) + tail;
    RecordReadWhole(header, fields, tail);
    var first := text[..LineEnd(text, 0)];
    assert first == header + first[|header|..];
    WindowGrows(header, first[|header|..], "!NOTICE");
    WindowGrows(header, first[|header|..], "scylla-audit");
  }

  /** The limit is looked at only after a row, and reached if the selected rows are that many. */
  predicate LimitMet(selected: seq<Row>, n: int) {
    selected != [] && |selected| >= n
  }

  /** The selected rows cut to the limit `n`, or followed by what more is read. */
  function Resume(rows: seq<Row>, n: int, more: (seq<Row>, Ending)): (r: (seq<Row>, Ending)) {
    if LimitMet(rows, n) then (FirstRows(rows, n), Finished) else (rows + more.0, more.1)
  }

  lemma ResumeStep(row: Row, rows: seq<Row>, n: int, more: (seq<Row>, Ending))
    ensures var rest := Resume(rows, n - 1, more);
      Resume([row] + rows, n, more) == if n <= 1 then ([row], Finished) else ([row] + rest.0, rest.1)
  {
    assert [row] + rows + more.0 == [row] + (rows + more.0);
    assert ([row] + rows)[..1] == [row] && (rows == [] ==> [row] + rows == [row]);
    assert 1 < n <= |rows| ==> ([row] + rows)[..n] == [row] + rows[..n - 1];
  }

  // ---- Records that do not come out as nine pieces

  lemma LineEndWithin(s: string, p: nat, rest: string)
    requires p < |s| && s[|s| - 1] == '\n'
    ensures LineEnd(s + rest, p) == LineEnd(s, p) <= |s| && s[LineEnd(s, p) - 1] == '\n'
    decreases |s| - p
  {
    if s[p] != '\n' {
      LineEndWithin(s, p + 1, rest);
    }
  }

  /** Joining ends inside a text that ends in a quote and a newline, whatever follows. */
  lemma {:induction false} JoinsWithin(s: string, end: nat, rest: string)
    requires 2 <= end <= |s| && s[|s| - 1] == '\n' && s[|s| - 2] == '"' && s[end - 1] == '\n'
    ensures RecordEnd(s, end).Some? && RecordEnd(s + rest, end) == RecordEnd(s, end)
    ensures s[RecordEnd(s, end).value - 1] == '\n'
    decreases |s| - end
  {
    if end < |s| && s[end - 2] != '"' {
      LineEndWithin(s, end, rest);
      JoinsWithin(s, LineEnd(s, end), rest);
    }
  }

  /** The rest of a text, from a line start on after which no line is an audit line, is skipped line by line. */
  lemma {:induction false} RestIsSkipped(s: string, p: nat, rest: string, parse: TimeParser, q: Query, found: nat)
    requires s != "" && s[|s| - 1] == '\n' && 0 < p <= |s| && s[p - 1] == '\n'
    requires forall i :: p <= i && IsLineStart(s, i) ==> !IsAuditLine(LineAt(s, i))
    ensures ReadRows(s[p..] + rest, parse, q, found) == ReadRows(rest, parse, q, found)
    decreases |s| - p
  {
    hide ReadRows, IsAuditLine, LineEnd;
    if p == |s| {
      assert s[p..] + rest == rest;
    } else {
      var text, e := s[p..] + rest, LineEnd(s, p);
      FirstLineOfRest(s, p, rest);
      assert IsLineStart(s, p);
      SkippedLine(text, parse, q);
      ReadStep(text, parse, q, found);
      assert text[e - p..] == s[e..] + rest;
      RestIsSkipped(s, e, rest, parse, q, found);
    }
  }

  lemma FirstLineOfRest(s: string, p: nat, rest: string)
    requires p < |s| && s[|s| - 1] == '\n'
    ensures var text := s[p..] + rest;
      LineEnd(text, 0) == LineEnd(s, p) - p && text[..LineEnd(text, 0)] == LineAt(s, p)
    ensures LineEnd(s, p) <= |s| && s[LineEnd(s, p) - 1] == '\n'
  {
    LineEndBound(s, p, |s| - 1);
    var k := LineEnd(s, p) - 1;
    var text := s[p..] + rest;
    forall i | 0 <= i < k - p ensures text[i] != '\n' {
      LineHasNoInnerNewline(s, p, p + i);
    }
    LineEndIs(text, 0, k - p);
    assert text[..k + 1 - p] == s[p..k + 1];
  }

  lemma SkippedLine(text: string, parse: TimeParser, q: Query)
    requires text != "" && !IsAuditLine(text[..LineEnd(text, 0)])
    ensures NextItem(text, parse, q) == (LineEnd(text, 0), Skip)
  {
  }

  /** What the reader takes first of a garbled record. */
  lemma GarbledItem(header: string, fields: seq<string>, tail: string, parse: TimeParser, q: Query)
    requires GoodGarbled(header, fields)
    ensures var rec := PrintRecord(header, fields);
      && 0 < Joined(rec) <= |rec| && rec[Joined(rec) - 1] == '\n' && rec[|rec| - 1] == '\n'
      && NextItem(rec + tail, parse, q) == (Joined(rec), Skip)
  {
    hide IsAuditLine, RecordEnd, AuditData, Split, Join, Judge;
    var rec := PrintRecord(header, fields);
    assert rec[|rec| - 2] == '"' && rec[|rec| - 1] == '\n';
    FirstLineIsAudit(header, fields, tail);
    RecordReadWhole(header, fields, tail);
    LineEndWithin(rec, 0, tail);
    var e := LineEnd(rec, 0);
    JoinsWithin(rec, e, tail);
    var end := Joined(rec);
    assert (rec + tail)[..end] == rec[..end] && (rec + tail)[..e] == rec[..e];
    OtherPiecesAreSkipped(Split(AuditData(rec[..end]), SEP), parse(Split(rec[..end], " ")[0]), q);
  }

  /** A garbled record leaves no trace: the reader goes on with what follows it. */
  lemma GarbledIsPassedOver(header: string, fields: seq<string>, tail: string, parse: TimeParser, q: Query, found: nat)
    requires GoodGarbled(header, fields)
    ensures ReadRows(PrintRecord(header, fields) + tail, parse, q, found) == ReadRows(tail, parse, q, found)
  {
    hide ReadRows, NextItem, PrintRecord, IsAuditLine, LineAt, LineEnd, Joined;
    var rec := PrintRecord(header, fields);
    var end := Joined(rec);
    GarbledItem(header, fields, tail, parse, q);
    ReadStep(rec + tail, parse, q, found);
    assert (rec + tail)[end..] == rec[end..] + tail;
    RestIsSkipped(rec, end, tail, parse, q, found);
  }

  /** Any number of good fields but nine makes such a record. */
  lemma WrongNumberIsGarbled(header: string, fields: seq<string>)
    requires HeaderShape(header) && 0 < |fields| != 9 && AllSeparable(fields) && AllUnbroken(fields)
    ensures GoodGarbled(header, fields)
  {
    hide IsAuditLine, RecordEnd, AuditData, Split, Join, AllSeparable, AllUnbroken;
    var rec := PrintRecord(header, fields);
    RecordReadWhole(header, fields, "");
    assert rec + "" == rec && rec[..|rec|] == rec;
    PrintedParts(header, fields);
    HeaderEndsAtOpen(header, Join(fields, SEP) + "\"\n");
    SplitRecovers(fields);
  }

  /** The fields up to the quote at `i` of field `b`. */
  function Cut(fields: seq<string>, b: nat, i: nat): (cut: seq<string>)
    requires b < |fields| && i <= |fields[b]|
  {
    fields[..b] + [fields[b][..i]]
  }

  lemma {:induction false} JoinOfCut(fields: seq<string>, b: nat, i: nat)
    requires b < |fields| && i <= |fields[b]|
    ensures Join(Cut(fields, b, i), SEP) + fields[b][i..] <= Join(fields, SEP)
    decreases b
  {
    if b == 0 {
      assert Cut(fields, 0, i) == [fields[0][..i]] && fields[0][..i] + fields[0][i..] == fields[0];
    } else {
      var rest := fields[1..];
      JoinOfCut(rest, b - 1, i);
      assert Cut(fields, b, i)[0] == fields[0] && Cut(fields, b, i)[1..] == Cut(rest, b - 1, i);
      var head, cut := fields[0] + SEP, Join(Cut(rest, b - 1, i), SEP);
      assert head + (cut + rest[b - 1][i..]) == head + cut + rest[b - 1][i..];
    }
  }

  lemma CutFields(fields: seq<string>, b: nat, i: nat)
    requires b < |fields| && i < |fields[b]| && fields[b][i] == '"'
    requires AllSeparable(fields) && Unbroken(fields[b][..i]) && forall j :: 0 <= j < b ==> Unbroken(fields[j])
    ensures AllSeparable(Cut(fields, b, i)) && AllUnbroken(Cut(fields, b, i))
  {
    hide Find;
    var f := fields[b];
    assert f[..i] + "\"" == f[..i + 1] && Separable(f);
    assert f[..i + 1] + (f[i + 1..] + "\"") == f + "\"";
    var k := Find(f[..i + 1], SEP, 0);
    if k != -1 {
      OccursFurther(f[..i + 1], f[i + 1..] + "\"", k);
    }
    assert Separable(f[..i]);
  }

  lemma OccursFurther(s: string, rest: string, k: int)
    requires OccursAt(s, SEP, k)
    ensures OccursAt(s + rest, SEP, k)
  {
    assert (s + rest)[k..k + |SEP|] == s[k..k + |SEP|];
  }

  /**
   A record with a field that has a quote at the end of a line: joining stops there, and what is joined
   comes apart in the fields up to that one. So such a record is passed over unless the field is the ninth.
   */
  lemma BrokenFieldCutsRecord(header: string, fields: seq<string>, b: nat, i: nat)
    requires HeaderShape(header) && b < |fields| && i + 1 < |fields[b]|
    requires fields[b][i] == '"' && fields[b][i + 1] == '\n'
    requires AllSeparable(fields) && Unbroken(fields[b][..i]) && forall j :: 0 <= j < b ==> Unbroken(fields[j])
    ensures var rec := PrintRecord(header, fields);
      && Joined(rec) <= |rec| && rec[..Joined(rec)] == PrintRecord(header, Cut(fields, b, i))
      && |Split(AuditData(rec[..Joined(rec)]), SEP)| == b + 1
  {
    hide IsAuditLine, RecordEnd, AuditData, Split, Join, AllSeparable, AllUnbroken, Unbroken, Contains;
    var rec, cut := PrintRecord(header, fields), Cut(fields, b, i);
    var head := PrintRecord(header, cut);
    CutFields(fields, b, i);
    HeadOfRecord(header, fields, b, i);
    var tail := rec[|head|..];
    assert rec == head + tail;
    RecordReadWhole(header, cut, tail);
    PrintedParts(header, cut);
    HeaderEndsAtOpen(header, Join(cut, SEP) + "\"\n");
    SplitRecovers(cut);
  }

  lemma HeadOfRecord(header: string, fields: seq<string>, b: nat, i: nat)
    requires b < |fields| && i + 1 < |fields[b]| && fields[b][i] == '"' && fields[b][i + 1] == '\n'
    ensures PrintRecord(header, Cut(fields, b, i)) <= PrintRecord(header, fields)
  {
    hide Join, Cut;
    JoinOfCut(fields, b, i);
    var f, joined, all := fields[b], Join(Cut(fields, b, i), SEP), Join(fields, SEP);
    var front := header + OPEN;
    assert f[i..] == "\"\n" + f[i + 2..];
    assert all[..|joined + f[i..]|] == joined + f[i..] && all[..|joined| + 2] == joined + "\"\n";
    assert PrintRecord(header, fields) == front + (all + "\"\n");
    assert PrintRecord(header, Cut(fields, b, i)) == front + (joined + "\"\n");
  }

  // ---- What follows the records: a log that is still being written

  /** The unfinished last line of a log that is still being written. */
  predicate Fragment(text: string) {
    '\n' !in text && !IsAuditLine(text)
  }

  lemma FragmentIsSkipped(text: string, parse: TimeParser, q: Query, found: nat)
    requires Fragment(text)
    ensures ReadRows(text, parse, q, found) == ([], Finished)
  {
    if text != "" {
      assert LineEnd(text, 0) == |text| && text[..|text|] == text;
      assert text[|text|..] == "";
    }
  }

  /** From the line that ends at `end` on, no line ends in a quote, and neither is the last but one character one. */
  ghost predicate Unclosed(text: string, end: nat)
    requires 2 <= end <= |text|
  {
    text[|text| - 2] != '"' && forall i :: end - 2 <= i < |text| - 2 ==> !OccursAt(text, CLOSING, i)
  }

  /** The joining loop never ends exactly when nothing in the rest of the file closes the record. */
  lemma {:induction false} JoinHangsIff(text: string, end: nat)
    requires 2 <= end <= |text| && (end == |text| || text[end - 1] == '\n')
    ensures RecordEnd(text, end).None? <==> Unclosed(text, end)
    decreases |text| - end
  {
    if end < |text| {
      if text[end - 2] == '"' {
        assert OccursAt(text, CLOSING, end - 2);
      } else {
        var e := LineEnd(text, end);
        JoinHangsIff(text, e);
        forall i | end - 2 <= i < e - 2 ensures !OccursAt(text, CLOSING, i) {
          NoClosingInLine(text, end, i);
        }
      }
    }
  }

  lemma NoClosingInLine(text: string, end: nat, i: int)
    requires 2 <= end < |text| && text[end - 2] != '"' && text[end - 1] == '\n'
    requires end - 2 <= i < LineEnd(text, end) - 2
    ensures !OccursAt(text, CLOSING, i)
  {
    if end <= i + 1 {
      LineHasNoInnerNewline(text, end, i + 1);
    }
    assert text[i] == text[i..i + 2][0] && text[i + 1] == text[i..i + 2][1];
  }

  /** An audit record that has been begun but not closed. */
  ghost predicate UnfinishedRecord(text: string) {
    && text != ""
    && IsAuditLine(text[..LineEnd(text, 0)])
    && 2 <= LineEnd(text, 0)
    && Unclosed(text, LineEnd(text, 0))
  }

  /** The reader hangs on the item before it exactly if that is an unfinished record. */
  lemma HangsOnUnfinished(text: string, parse: TimeParser, q: Query)
    requires text != ""
    ensures NextItem(text, parse, q).1 == Hang <==> UnfinishedRecord(text)
  {
    hide Unclosed, RecordEnd;
    var e := LineEnd(text, 0);
    if IsAuditLine(text[..e]) {
      AuditLineIsLong(text[..e]);
      JoinHangsIff(text, e);
    }
  }

  lemma SelectedStep(entries: seq<Entry>, parse: TimeParser, q: Query)
    requires GoodLog(entries, parse) && entries != []
    ensures var e, rest := entries[0], Selected(entries[1..], parse, q);
      && GoodEntry(e, parse) && (e.Record? ==> GoodHeader(e.header, parse))
      && Selected(entries, parse, q)
         == if e.Record? && Accepts(q, e.audited) then [RowOf(e.header, e.audited, parse)] + rest else rest
  {
    hide RowOf, Accepts, HeaderShape, GoodFields, GoodGarbled;
  }

  /**
   Reading undoes printing, whatever `last` follows: exactly the records the query asks for
   come back, in order and with every field but `error`. If they meet the limit, they are cut
   to it (at least one is yielded) and `last` is not looked at; otherwise the reader goes on with `last`.
   */
  lemma {:induction false} ReadUndoesPrint(entries: seq<Entry>, last: string, parse: TimeParser, q: Query, found: nat)
    requires GoodLog(entries, parse) && NoneStuck(entries, q)
    ensures var rows := Selected(entries, parse, q);
      ReadRows(Print(entries) + last, parse, q, found)
        == Resume(rows, q.limitRows - found, ReadRows(last, parse, q, found + |rows|))
    decreases |entries|
  {
    hide PrintEntry, RowOf, Accepts, GoodEntry, GoodHeader, ReadRows, Resume, Stuck, Selected;
    if entries == [] {
      NothingSelected(parse, q);
      ResumeNothing(q.limitRows - found, ReadRows(last, parse, q, found));
      assert Print(entries) + last == last;
    } else {
      var e, rest := entries[0], Print(entries[1..]) + last;
      assert Print(entries) + last == PrintEntry(e) + rest && !Stuck(e, q);
      SelectedStep(entries, parse, q);
      EntryStep(e, rest, parse, q, found);
      if e.Record? && Accepts(q, e.audited) {
        var rows := Selected(entries[1..], parse, q);
        ReadUndoesPrint(entries[1..], last, parse, q, found + 1);
        ResumeStep(RowOf(e.header, e.audited, parse), rows, q.limitRows - found,
                   ReadRows(last, parse, q, found + 1 + |rows|));
      } else {
        ReadUndoesPrint(entries[1..], last, parse, q, found);
      }
    }
  }

  lemma NothingSelected(parse: TimeParser, q: Query)
    ensures Selected([], parse, q) == []
  {
  }

  lemma ResumeNothing(n: int, more: (seq<Row>, Ending))
    ensures Resume([], n, more) == more
  {
    assert [] + more.0 == more.0;
  }

  /** What reading a printed entry and anything after it comes to. */
  lemma EntryStep(e: Entry, rest: string, parse: TimeParser, q: Query, found: nat)
    requires GoodEntry(e, parse)
    ensures var (rows, end) := ReadRows(rest, parse, q, found + 1);
      ReadRows(PrintEntry(e) + rest, parse, q, found) ==
        if Stuck(e, q) then ([], Raised)
        else if !(e.Record? && Accepts(q, e.audited)) then ReadRows(rest, parse, q, found)
        else if found + 1 >= q.limitRows then ([RowOf(e.header, e.audited, parse)], Finished)
        else ([RowOf(e.header, e.audited, parse)] + rows, end)
  {
    hide NextItem, GoodFields, GoodGarbled, HeaderShape, RowOf, Accepts, PrintRecord, ReadRows;
    if e.Garbled? {
      GarbledIsPassedOver(e.header, e.fields, rest, parse, q, found);
    } else {
      var text := PrintEntry(e) + rest;
      EntryIsOneItem(e, rest, parse, q);
      NonEmptyEntry(e);
      ReadStep(text, parse, q, found);
      assert text[|PrintEntry(e)|..] == rest;
    }
  }

  lemma NonEmptyEntry(e: Entry)
    ensures PrintEntry(e) != ""
  {
  }

  /** A log whose last line is no audit line yet: all its records are read, and the reader finishes. */
  lemma WholeLogIsRead(entries: seq<Entry>, last: string, parse: TimeParser, q: Query, found: nat)
    requires GoodLog(entries, parse) && NoneStuck(entries, q) && Fragment(last)
    ensures ReadRows(Print(entries) + last, parse, q, found)
         == (FirstRows(Selected(entries, parse, q), q.limitRows - found), Finished)
  {
    hide ReadRows, Selected, Print, Fragment, GoodLog;
    var rows := Selected(entries, parse, q);
    ReadUndoesPrint(entries, last, parse, q, found);
    FragmentIsSkipped(last, parse, q, found + |rows|);
    assert rows + [] == rows;
  }

  /**
   A log whose last record is still being written: the same rows are read, but then the reader
   finishes only if they meet the limit; otherwise it never does.
   */
  lemma LiveLogHangs(entries: seq<Entry>, last: string, parse: TimeParser, q: Query, found: nat)
    requires GoodLog(entries, parse) && NoneStuck(entries, q) && UnfinishedRecord(last)
    ensures var rows := Selected(entries, parse, q);
      ReadRows(Print(entries) + last, parse, q, found)
        == (FirstRows(rows, q.limitRows - found), if LimitMet(rows, q.limitRows - found) then Finished else Hangs)
  {
    hide ReadRows, Selected, Print, NextItem, GoodLog;
    var rows := Selected(entries, parse, q);
    ReadUndoesPrint(entries, last, parse, q, found);
    HangsOnUnfinished(last, parse, q);
    ReadStep(last, parse, q, found + |rows|);
    assert rows + [] == rows;
  }

  // ---- When the reader raises

  /** The first entry that makes the reader raise, or the number of entries. */
  function FirstStuck(entries: seq<Entry>, q: Query): (k: nat)
    ensures k <= |entries| && (k < |entries| ==> Stuck(entries[k], q))
    ensures forall i :: 0 <= i < k ==> !Stuck(entries[i], q)
  {
    if entries == [] || Stuck(entries[0], q) then 0
    else
      assert forall i :: 1 <= i < |entries| ==> entries[i] == entries[1..][i - 1];
      FirstStuck(entries[1..], q) + 1
  }

  lemma {:induction false} PrintConcat(a: seq<Entry>, b: seq<Entry>)
    ensures Print(a + b) == Print(a) + Print(b)
  {
    if a == [] {
      assert a + b == b;
    } else {
      assert (a + b)[1..] == a[1..] + b;
      PrintConcat(a[1..], b);
    }
  }

  /**
   Any log, also one with records that have no time stamp: the rows are the selected ones before the first accepted
   record without a stamp. There the reader raises, exactly if it has not met the limit before.
   */
  lemma ReadAnyLog(entries: seq<Entry>, last: string, parse: TimeParser, q: Query, found: nat)
    requires GoodLog(entries, parse)
    ensures var k := FirstStuck(entries, q);
      var rows := Selected(entries[..k], parse, q);
      ReadRows(Print(entries) + last, parse, q, found)
        == Resume(rows, q.limitRows - found,
                  if k < |entries| then ([], Raised) else ReadRows(last, parse, q, found + |rows|))
  {
    hide ReadRows, Selected, GoodEntry, Stuck, Print, FirstStuck, Resume;
    var k := FirstStuck(entries, q);
    var a, b := entries[..k], entries[k..];
    assert a + b == entries;
    PrintConcat(a, b);
    assert Print(a) + Print(b) + last == Print(a) + (Print(b) + last);
    ReadUndoesPrint(a, Print(b) + last, parse, q, found);
    var rows := Selected(a, parse, q);
    if k < |entries| {
      StuckAtOnce(b, last, parse, q, found + |rows|);
    } else {
      NothingPrinted();
      assert b == [] && "" + last == last;
    }
  }

  lemma StuckAtOnce(entries: seq<Entry>, last: string, parse: TimeParser, q: Query, found: nat)
    requires entries != [] && GoodEntry(entries[0], parse) && Stuck(entries[0], q)
    ensures ReadRows(Print(entries) + last, parse, q, found) == ([], Raised)
  {
    hide ReadRows, GoodEntry, PrintEntry;
    assert Print(entries) + last == PrintEntry(entries[0]) + (Print(entries[1..]) + last);
    EntryStep(entries[0], Print(entries[1..]) + last, parse, q, found);
  }

  lemma NothingPrinted()
    ensures Print([]) == ""
  {
  }

  /** A log written to its end raises exactly if an accepted record without a stamp comes before the limit is met. */
  lemma RaisesIff(entries: seq<Entry>, last: string, parse: TimeParser, q: Query)
    requires GoodLog(entries, parse) && Fragment(last)
    ensures var k := FirstStuck(entries, q);
      ReadRows(Print(entries) + last, parse, q, 0).1 == Raised <==>
        k < |entries| && !LimitMet(Selected(entries[..k], parse, q), q.limitRows)
  {
    hide ReadRows, Selected, GoodLog, Print, Fragment, FirstStuck;
    ReadAnyLog(entries, last, parse, q, 0);
    forall n: nat ensures ReadRows(last, parse, q, n) == ([], Finished) {
      FragmentIsSkipped(last, parse, q, n);
    }
  }

  lemma EndsAtEnd(text: string, pos: nat)
    requires pos <= |text| && '\n' !in text
    ensures LineEnd(text, pos) == |text|
    decreases |text| - pos
  {
  }

  /** On a begun audit line every query hangs, unless a quote happens to be its last but one character. */
  lemma BegunLineHangs(text: string, parse: TimeParser, q: Query)
    requires '\n' !in text && IsAuditLine(text)
    ensures |text| >= 2 && (ReadRows(text, parse, q, 0) == ([], Hangs) <==> text[|text| - 2] != '"')
  {
    hide ReadRows, NextItem, IsAuditLine;
    AuditLineIsLong(text);
    EndsAtEnd(text, 0);
    assert text[..|text|] == text;
    HangsOnUnfinished(text, parse, q);
    ReadStep(text, parse, q, 0);
    OneItemOnly(text, parse, q);
  }

  /** A single line is a single item. */
  lemma OneItemOnly(text: string, parse: TimeParser, q: Query)
    requires text != "" && LineEnd(text, 0) == |text|
    ensures NextItem(text, parse, q).0 == |text|
    ensures forall found: nat :: ReadRows(text[NextItem(text, parse, q).0..], parse, q, found) == ([], Finished)
  {
    hide Interpret, IsAuditLine;
    ReadNothing(parse, q);
    assert text[|text|..] == "";
  }

  /** Such a log: a record of which only the start has been written so far. */
  lemma HangingLog(parse: TimeParser, q: Query)
    ensures ReadRows("!NOTICE scylla-audit:", parse, q, 0) == ([], Hangs)
  {
    hide ReadRows, Find;
    var text := "!NOTICE scylla-audit:";
    assert Window(text) == text;
    assert OccursAt(text, "!NOTICE", 0) && OccursAt(text, "scylla-audit", 8);
    BegunLineHangs(text, parse, q);
  }
}
