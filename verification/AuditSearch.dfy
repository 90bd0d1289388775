/**
 `get_audit_log_rows` with a time to start from: the reader of audit records begins where the
 search over the log left the file, which can be inside a record of several lines.
 */
module AuditSearch {
  import opened Text
  import opened LogSearch
  import opened AuditLog

  /** The search reads the same stamp as the reader: the first token of a line. */
  function Stamps(parse: TimeParser): (stamp: StampParser) {
    line => parse(Split(line, " ")[0])
  }

  /** `get_audit_log_rows`; a search that yields nothing makes the context manager raise. */
  function RowsFrom(text: string, parse: TimeParser, q: Query, on: Option<int>): (r: (seq<Row>, Ending)) {
    var start := if on.None? then At(0) else Search(text, Stamps(parse), WholeSecond(on.value), 0, |text|, |text|);
    if start.NotYielded? then ([], Raised) else ReadRows(text[start.pos..], parse, q, 0)
  }

  method GetAuditLogRowsFrom(text: string, parse: TimeParser, q: Query, on: Option<int>)
    returns (rows: seq<Row>, ending: Ending)
    ensures (rows, ending) == RowsFrom(text, parse, q, on)
  {
    hide Search, SearchCourse, ReadRows, Chronological, Positioned;
    var start := OpenSystemLog(text, Stamps(parse), on);
    if start.NotYielded? {
      return [], Raised;
    }
    rows, ending := GetAuditLogRows(text[start.pos..], parse, q);
  }

  // ---- Starting inside a record

  /** No line of the entry but its first looks like the start of a record. */
  ghost predicate QuietInside(e: Entry) {
    var s := PrintEntry(e);
    forall p :: 0 < p && IsLineStart(s, p) ==> !IsAuditLine(LineAt(s, p))
  }

  ghost predicate AllQuietInside(entries: seq<Entry>) {
    forall i :: 0 <= i < |entries| ==> QuietInside(entries[i])
  }

  /** The entries that are printed at the offset `pos` or after it. */
  function EntriesFrom(entries: seq<Entry>, pos: int): (es: seq<Entry>)
    decreases |entries|
  {
    if entries == [] || pos <= 0 then entries else EntriesFrom(entries[1..], pos - |PrintEntry(entries[0])|)
  }

  lemma {:induction false} SuffixNotStuck(entries: seq<Entry>, pos: int, q: Query)
    requires NoneStuck(entries, q)
    ensures NoneStuck(EntriesFrom(entries, pos), q)
    decreases |entries|
  {
    hide Stuck;
    if entries != [] && pos > 0 {
      SuffixNotStuck(entries[1..], pos - |PrintEntry(entries[0])|, q);
    }
  }

  lemma EntryEndsInNewline(e: Entry)
    ensures PrintEntry(e) != "" && PrintEntry(e)[|PrintEntry(e)| - 1] == '\n'
  {
  }

  /** What is left of `last`, which follows the entries, when reading starts at `pos`. */
  function LastFrom(entries: seq<Entry>, last: string, pos: nat): (s: string)
    requires pos <= |Print(entries)| + |last|
  {
    if pos <= |Print(entries)| then last else last[pos - |Print(entries)|..]
  }

  /** `pos` is the start or the end of the text or follows a newline. */
  ghost predicate AtLine(text: string, pos: nat) {
    pos <= |text| && (pos == 0 || pos == |text| || text[pos - 1] == '\n')
  }

  /** Nothing of the first entry is read from an offset after it. */
  lemma AfterFirst(entries: seq<Entry>, last: string, pos: nat)
    requires entries != [] && |PrintEntry(entries[0])| <= pos && AtLine(Print(entries) + last, pos)
    ensures var n, tail := |PrintEntry(entries[0])|, Print(entries[1..]) + last;
      && AtLine(tail, pos - n) && (Print(entries) + last)[pos..] == tail[pos - n..]
      && EntriesFrom(entries, pos) == EntriesFrom(entries[1..], pos - n)
      && LastFrom(entries, last, pos) == LastFrom(entries[1..], last, pos - n)
  {
    hide PrintEntry;
    EntryEndsInNewline(entries[0]);
    var s, tail := PrintEntry(entries[0]), Print(entries[1..]) + last;
    assert Print(entries) + last == s + tail;
  }

  /** What is left of the first entry is passed over from an offset inside it. */
  lemma InsideFirst(entries: seq<Entry>, last: string, pos: nat, parse: TimeParser, q: Query, found: nat)
    requires entries != [] && QuietInside(entries[0])
    requires 0 < pos < |PrintEntry(entries[0])| && AtLine(Print(entries) + last, pos)
    ensures ReadRows((Print(entries) + last)[pos..], parse, q, found)
         == ReadRows(Print(EntriesFrom(entries, pos)) + LastFrom(entries, last, pos), parse, q, found)
  {
    hide ReadRows, PrintEntry, QuietInside;
    var s, tail := PrintEntry(entries[0]), Print(entries[1..]) + last;
    assert Print(entries) + last == s + tail && (s + tail)[pos..] == s[pos..] + tail;
    assert (s + tail)[pos - 1] == s[pos - 1];
    InsideEntry(entries[0], pos, tail, parse, q, found);
    assert EntriesFrom(entries[1..], pos - |s|) == entries[1..];
  }

  /** Reading from a line start amounts to reading the entries printed from there on. */
  lemma {:induction false} ReadFrom(entries: seq<Entry>, last: string, pos: nat, parse: TimeParser, q: Query,
                                    found: nat)
    requires AllQuietInside(entries) && AtLine(Print(entries) + last, pos)
    ensures ReadRows((Print(entries) + last)[pos..], parse, q, found)
         == ReadRows(Print(EntriesFrom(entries, pos)) + LastFrom(entries, last, pos), parse, q, found)
    decreases |entries|
  {
    hide ReadRows, PrintEntry, QuietInside;
    var text := Print(entries) + last;
    if pos == 0 {
      assert text[0..] == text;
    } else if entries == [] {
      assert text[pos..] == Print([]) + last[pos..];
    } else {
      hide AtLine, Print, EntriesFrom, LastFrom;
      if pos < |PrintEntry(entries[0])| {
        InsideFirst(entries, last, pos, parse, q, found);
      } else {
        AfterFirst(entries, last, pos);
        ReadFrom(entries[1..], last, pos - |PrintEntry(entries[0])|, parse, q, found);
      }
    }
  }

  lemma InsideEntry(e: Entry, pos: nat, tail: string, parse: TimeParser, q: Query, found: nat)
    requires QuietInside(e) && 0 < pos < |PrintEntry(e)| && PrintEntry(e)[pos - 1] == '\n'
    ensures ReadRows(PrintEntry(e)[pos..] + tail, parse, q, found) == ReadRows(tail, parse, q, found)
  {
    hide ReadRows, PrintEntry, IsAuditLine, LineAt;
    EntryEndsInNewline(e);
    RestIsSkipped(PrintEntry(e), pos, tail, parse, q, found);
  }

  // ---- The records at or after the requested second

  /** When the record was written. */
  function TimeOf(header: string, parse: TimeParser): (t: int)
    requires GoodHeader(header, parse)
  {
    parse(Split(header, " ")[0]).value
  }

  /**
   The records a query asks for among those at or after `t`, without those printed at an offset
   in `lost`; the first entry is printed at `at`.
   */
  ghost function SelectedSince(entries: seq<Entry>, at: nat, t: int, lost: set<int>, parse: TimeParser, q: Query)
    : (rows: seq<Row>)
    requires GoodLog(entries, parse)
    decreases |entries|
  {
    if entries == [] then []
    else
      var rest := SelectedSince(entries[1..], at + |PrintEntry(entries[0])|, t, lost, parse, q);
      assert GoodEntry(entries[0], parse);
      match entries[0]
      case Record(header, audited) =>
        if Accepts(q, audited) && TimeOf(header, parse) >= t && at !in lost then [RowOf(header, audited, parse)] + rest
        else rest
      case _ => rest
  }

  /** No accepted record at or after `t` is printed at an offset in `lost`. */
  ghost predicate NoneLost(entries: seq<Entry>, at: nat, t: int, lost: set<int>, parse: TimeParser, q: Query)
    requires GoodLog(entries, parse)
    decreases |entries|
  {
    entries == [] ||
    (&& NoneLost(entries[1..], at + |PrintEntry(entries[0])|, t, lost, parse, q)
     && (entries[0].Record? && at in lost ==> !Wanted(entries[0], t, parse, q)))
  }

  ghost predicate Wanted(e: Entry, t: int, parse: TimeParser, q: Query)
    requires e.Record?
  {
    Accepts(q, e.audited) && GoodHeader(e.header, parse) && TimeOf(e.header, parse) >= t
  }

  /** All accepted records at or after `t` come back exactly when none of them is lost. */
  lemma {:induction false} AllComeBackIff(entries: seq<Entry>, at: nat, t: int, lost: set<int>, parse: TimeParser,
                                          q: Query)
    requires GoodLog(entries, parse)
    ensures |SelectedSince(entries, at, t, lost, parse, q)| <= |SelectedSince(entries, at, t, {}, parse, q)|
    ensures SelectedSince(entries, at, t, lost, parse, q) == SelectedSince(entries, at, t, {}, parse, q)
       <==> NoneLost(entries, at, t, lost, parse, q)
    decreases |entries|
  {
    hide PrintEntry, RowOf, Accepts, TimeOf, GoodHeader, Separable, Unbroken;
    if entries != [] {
      assert GoodEntry(entries[0], parse);
      var next := at + |PrintEntry(entries[0])|;
      AllComeBackIff(entries[1..], next, t, lost, parse, q);
      if entries[0].Record? && Wanted(entries[0], t, parse, q) {
        SameRest(RowOf(entries[0].header, entries[0].audited, parse),
                 SelectedSince(entries[1..], next, t, lost, parse, q),
                 SelectedSince(entries[1..], next, t, {}, parse, q));
      }
    }
  }

  lemma SameRest(row: Row, a: seq<Row>, b: seq<Row>)
    ensures [row] + a == [row] + b <==> a == b
  {
    assert ([row] + a)[1..] == a && ([row] + b)[1..] == b;
  }

  /** The records from `pos` on are those at or after `t` that are not lost. */
  ghost predicate Agree(entries: seq<Entry>, at: nat, pos: nat, t: int, lost: set<int>, parse: TimeParser)
    requires GoodLog(entries, parse)
    decreases |entries|
  {
    entries == [] ||
    (&& Agree(entries[1..], at + |PrintEntry(entries[0])|, pos, t, lost, parse)
     && (entries[0].Record? ==> AgreeAt(entries[0], at, pos, t, lost, parse)))
  }

  ghost predicate AgreeAt(e: Entry, at: nat, pos: nat, t: int, lost: set<int>, parse: TimeParser)
    requires e.Record?
  {
    GoodHeader(e.header, parse) && (pos <= at <==> TimeOf(e.header, parse) >= t && at !in lost)
  }

  lemma {:induction false} SinceIsFrom(entries: seq<Entry>, at: nat, pos: nat, t: int, lost: set<int>,
                                       parse: TimeParser, q: Query)
    requires GoodLog(entries, parse) && Agree(entries, at, pos, t, lost, parse)
    ensures GoodLog(EntriesFrom(entries, pos - at), parse)
    ensures SelectedSince(entries, at, t, lost, parse, q) == Selected(EntriesFrom(entries, pos - at), parse, q)
    decreases |entries|
  {
    hide GoodEntry, PrintEntry, RowOf, Accepts, TimeOf;
    if entries != [] {
      var e := entries[0];
      SinceIsFrom(entries[1..], at + |PrintEntry(e)|, pos, t, lost, parse, q);
      if pos <= at {
        EntryEndsInNewline(e);
        assert EntriesFrom(entries[1..], pos - at - |PrintEntry(e)|) == entries[1..];
      }
    }
  }

  /** The first line of a record carries the record's time. */
  lemma HeaderStamp(before: string, header: string, audited: Audited, after: string, parse: TimeParser)
    requires GoodHeader(header, parse) && (before == "" || before[|before| - 1] == '\n')
    ensures var text := before + PrintRecord(header, Fields(audited)) + after;
      Stamped(text, Stamps(parse), |before|) && StampAt(text, Stamps(parse), |before|) == TimeOf(header, parse)
  {
    hide Split, IsAuditLine, Contains, Join, Fields;
    var text := before + PrintRecord(header, Fields(audited)) + after;
    var e := LineEnd(text, |before|);
    assert text[|before|..|before| + |header|] == header;
    HeaderInLine(text, |before|, |header|);
    var line := LineAt(text, |before|);
    assert line == header + line[|header|..];
    FirstTokenOfHeader(header, line[|header|..]);
  }

  lemma HeaderInLine(text: string, at: nat, n: nat)
    requires at + n < |text| && forall i :: at <= i < at + n ==> text[i] != '\n'
    ensures at + n < LineEnd(text, at)
    decreases n
  {
    if n > 0 {
      HeaderInLine(text, at + 1, n - 1);
    }
  }

  lemma {:induction false} PositionedAgrees(before: string, entries: seq<Entry>, last: string, pos: nat, t: int,
                                            parse: TimeParser)
    requires GoodLog(entries, parse) && (before == "" || before[|before| - 1] == '\n')
    requires Positioned(before + Print(entries) + last, Stamps(parse), t, pos)
    ensures Agree(entries, |before|, pos, t, Skipped(before + Print(entries) + last, Stamps(parse), t, pos), parse)
    decreases |entries|
  {
    hide GoodEntry, PrintEntry, Positioned, Skipped, AgreeAt;
    if entries != [] {
      var e, text := entries[0], before + Print(entries) + last;
      var rest := Print(entries[1..]) + last;
      assert text == before + PrintEntry(e) + rest;
      assert text == (before + PrintEntry(e)) + Print(entries[1..]) + last;
      EntryEndsInNewline(e);
      PositionedAgrees(before + PrintEntry(e), entries[1..], last, pos, t, parse);
      if e.Record? {
        RecordAgrees(before, e, rest, pos, t, parse);
      }
    }
  }

  lemma RecordAgrees(before: string, e: Entry, after: string, pos: nat, t: int, parse: TimeParser)
    requires e.Record? && GoodEntry(e, parse) && (before == "" || before[|before| - 1] == '\n')
    requires Positioned(before + PrintEntry(e) + after, Stamps(parse), t, pos)
    ensures AgreeAt(e, |before|, pos, t, Skipped(before + PrintEntry(e) + after, Stamps(parse), t, pos), parse)
  {
    hide GoodHeader, Separable, Unbroken, PrintRecord, Stamped, StampAt, TimeOf;
    HeaderStamp(before, e.header, e.audited, after, parse);
  }

  /**
   Reading from a position that the search promises gives exactly the accepted records at or after the requested
   second, but for those the search lost, and then goes on with what follows them.
   */
  lemma ReadSince(entries: seq<Entry>, last: string, pos: nat, t: int, parse: TimeParser, q: Query)
    requires GoodLog(entries, parse) && NoneStuck(entries, q) && AllQuietInside(entries)
    requires var text := Print(entries) + last;
      && pos <= |text| && (pos == |text| || IsLineStart(text, pos))
      && Positioned(text, Stamps(parse), t, pos)
    ensures var text := Print(entries) + last;
      var rows := SelectedSince(entries, 0, t, Skipped(text, Stamps(parse), t, pos), parse, q);
      ReadRows(text[pos..], parse, q, 0)
        == Resume(rows, q.limitRows, ReadRows(LastFrom(entries, last, pos), parse, q, |rows|))
  {
    hide ReadRows, GoodEntry, QuietInside, Positioned, Skipped, Agree, SelectedSince, Selected, EntriesFrom, Print;
    var text := Print(entries) + last;
    var lost := Skipped(text, Stamps(parse), t, pos);
    assert "" + Print(entries) + last == text;
    PositionedAgrees("", entries, last, pos, t, parse);
    SinceIsFrom(entries, 0, pos, t, lost, parse, q);
    ReadFrom(entries, last, pos, parse, q, 0);
    SuffixNotStuck(entries, pos, q);
    ReadUndoesPrint(EntriesFrom(entries, pos), LastFrom(entries, last, pos), parse, q, 0);
  }

  /** The lines a search for `t` in `text` loses: the first if it qualifies and, unless spared, the next that does. */
  ghost predicate LostBySearch(lost: set<int>, text: string, stamp: StampParser, t: int) {
    && (0 in lost <==> Qualifies(text, stamp, t, 0))
    && (Spared(text, stamp, t) ==> lost - {0} == {})
    && (!Spared(text, stamp, t) ==> exists h :: FirstLate(text, stamp, t, h) && lost - {0} == {h})
  }

  /**
   Asking a log for the records from a time on. If the course of the search meets the stretch without stamps at the
   end, the reader raises. Otherwise exactly the accepted records at or after that second come back, but for those
   whose first line the search loses, in order and cut to the limit; a record inside which reading
   starts is passed over.
   */
  lemma RowsSince(entries: seq<Entry>, last: string, parse: TimeParser, q: Query, on: int)
    requires GoodLog(entries, parse) && NoneStuck(entries, q) && AllQuietInside(entries)
    requires Chronological(Print(entries) + last, Stamps(parse))
    ensures var text, t := Print(entries) + last, WholeSecond(on);
      var start := Search(text, Stamps(parse), t, 0, |text|, |text|);
      if SearchCourse(text, Stamps(parse), t) == -1 then RowsFrom(text, parse, q, Some(on)) == ([], Raised)
      else
        && start.At?
        && var lost := Skipped(text, Stamps(parse), t, start.pos);
        && LostBySearch(lost, text, Stamps(parse), t)
        && var rows := SelectedSince(entries, 0, t, lost, parse, q);
        && RowsFrom(text, parse, q, Some(on))
           == Resume(rows, q.limitRows, ReadRows(LastFrom(entries, last, start.pos), parse, q, |rows|))
  {
    hide ReadRows, GoodLog, AllQuietInside, Positioned, Skipped, SelectedSince, Print, Search, SearchCourse, Spared,
         LostBySearch, Chronological;
    var text, t := Print(entries) + last, WholeSecond(on);
    CourseDecides(text, Stamps(parse), t);
    if SearchCourse(text, Stamps(parse), t) != -1 {
      var pos := Search(text, Stamps(parse), t, 0, |text|, |text|).pos;
      SearchIsPositioned(text, Stamps(parse), t);
      LostIs(text, Stamps(parse), t, pos);
      ReadSince(entries, last, pos, t, parse, q);
    }
  }

  lemma LostIs(text: string, stamp: StampParser, t: int, pos: nat)
    requires Positioned(text, stamp, t, pos)
    requires Skipped(text, stamp, t, pos) - {0} == {} <==> Spared(text, stamp, t)
    ensures LostBySearch(Skipped(text, stamp, t, pos), text, stamp, t)
  {
    hide Spared, Qualifies, FirstLate;
  }

  /** A wanted record at the very start of the log never comes back. */
  lemma FirstRecordIsLost(entries: seq<Entry>, last: string, parse: TimeParser, q: Query, t: int, lost: set<int>)
    requires GoodLog(entries, parse) && entries != [] && entries[0].Record? && Wanted(entries[0], t, parse, q)
    requires LostBySearch(lost, Print(entries) + last, Stamps(parse), t)
    ensures SelectedSince(entries, 0, t, lost, parse, q) != SelectedSince(entries, 0, t, {}, parse, q)
  {
    hide SelectedSince, Wanted, Print, PrintEntry, GoodEntry, Spared, Qualifies;
    StartQualifies(entries, last, parse, q, t);
    AllComeBackIff(entries, 0, t, lost, parse, q);
  }

  lemma StartQualifies(entries: seq<Entry>, last: string, parse: TimeParser, q: Query, t: int)
    requires entries != [] && entries[0].Record? && Wanted(entries[0], t, parse, q)
    ensures Qualifies(Print(entries) + last, Stamps(parse), t, 0)
  {
    hide GoodHeader, Accepts, PrintRecord, Stamped, StampAt, TimeOf;
    var e, rest := entries[0], Print(entries[1..]) + last;
    HeaderStamp("", e.header, e.audited, rest, parse);
    assert "" + PrintEntry(e) + rest == Print(entries) + last;
  }
}
