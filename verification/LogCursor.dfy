/**
 The cursor of `DbLogReader._read_and_publish_events`: which lines of a growing log each
 pass reads, which of them it processes and under which numbers.
 */
module LogCursor {
  import opened Text

  const MAX_LINE := 5120
  const MAX_SKIPPED := 20

  /** `_last_line_no`, `_last_log_position` and `_skipped_end_line`. */
  datatype Cursor = Cursor(lineNo: int, pos: nat, skipped: nat)

  const START := Cursor(-1, 0, 0)

  /** A line processed for events, with the number it was given and the offset it was read at. */
  datatype Numbered = Numbered(index: int, pos: nat, line: string)

  function Trim(line: string): (r: string)
    ensures r <= line && |r| == if |line| <= 5120 then |line| else 5120
  {
    if |line| > MAX_LINE then line[..MAX_LINE] else line
  }

  /** The line is short enough and complete. */
  predicate Whole(line: string) {
    0 < |line| <= MAX_LINE && line[|line| - 1] == '\n'
  }

  predicate EndsInNewline(line: string) {
    line != "" && line[|line| - 1] == '\n'
  }

  /** The lines of `text` from offset `pos` on, as iterating over the file gives them. */
  function LinesFrom(text: string, pos: nat): (ls: seq<string>)
    requires pos <= |text|
    ensures ls == [] <==> pos == |text|
    decreases |text| - pos
  {
    if pos == |text| then [] else [LineAt(text, pos)] + LinesFrom(text, LineEnd(text, pos))
  }

  /** What is processed of `lines` when the first has number `index` and stands at `pos`. */
  function Process(lines: seq<string>, index: int, pos: nat, skipped: nat): (r: (seq<Numbered>, nat)) {
    if lines == [] then ([], skipped)
    else
      var line := Trim(lines[0]);
      if EndsInNewline(line) || skipped > MAX_SKIPPED then
        var rest := Process(lines[1..], index + 1, pos + |lines[0]|, 0);
        ([Numbered(index, pos, line)] + rest.0, rest.1)
      else Process(lines[1..], index + 1, pos + |lines[0]|, skipped + 1)
  }

  /** The lines a pass reads; none beyond the end of a log that has shrunk. */
  function Unread(c: Cursor, text: string): (lines: seq<string>) {
    if c.pos <= |text| then LinesFrom(text, c.pos) else []
  }

  /** The cursor moves only if the last number given is not zero. */
  predicate Moves(c: Cursor, text: string) {
    Unread(c, text) != [] && c.lineNo + |Unread(c, text)| != 0
  }

  /** One pass. */
  function Pass(c: Cursor, text: string): (r: (Cursor, seq<Numbered>))
    ensures c.pos <= |text| ==> r.0.pos <= |text|
  {
    var (handled, skipped) := Process(Unread(c, text), c.lineNo + 1, c.pos, c.skipped);
    (if Moves(c, text) then Cursor(c.lineNo + |Unread(c, text)|, |text|, skipped) else c.(skipped := skipped), handled)
  }

  class Reader {
    var cursor: Cursor

    constructor ()
      ensures cursor == START
    {
      cursor := START;
    }

    method Read(text: string) returns (handled: seq<Numbered>)
      modifies this
      ensures cursor == old(Pass(cursor, text)).0 && handled == old(Pass(cursor, text)).1
    {
      hide LineEnd, Trim, LinesFrom, Process;
      if cursor.pos > |text| {
        ProcessNothing(cursor.lineNo + 1, cursor.pos, cursor.skipped);
        return [];
      }
      ghost var all := LinesFrom(text, cursor.pos);
      ghost var total := Process(all, cursor.lineNo + 1, cursor.pos, cursor.skipped);
      var pos, index, next := cursor.pos, 0, cursor.lineNo + 1;
      handled := [];
      while pos < |text|
        invariant cursor.pos == old(cursor.pos) <= pos <= |text| && cursor.lineNo == old(cursor.lineNo)
        invariant next == cursor.lineNo + 1 + |all| - |LinesFrom(text, pos)|
        invariant index == if pos == cursor.pos then 0 else next - 1
        invariant total.0 == handled + Process(LinesFrom(text, pos), next, pos, cursor.skipped).0
        invariant total.1 == Process(LinesFrom(text, pos), next, pos, cursor.skipped).1
        decreases |text| - pos
      {
        LinesStep(text, pos);
        var end := LineEnd(text, pos);
        var line := Trim(text[pos..end]);
        ProcessStep(text[pos..end], LinesFrom(text, end), next, pos, cursor.skipped);
        var start := pos;
        index, next, pos := next, next + 1, end;
        if line[|line| - 1] == '\n' || cursor.skipped > MAX_SKIPPED {
          cursor := cursor.(skipped := 0);
          handled := handled + [Numbered(index, start, line)];
        } else {
          cursor := cursor.(skipped := cursor.skipped + 1);
        }
      }
      ProcessNothing(next, pos, cursor.skipped);
      assert LinesFrom(text, pos) == [];
      assert total.0 == handled + [] == handled && total.1 == cursor.skipped;
      if index != 0 {
        cursor := cursor.(lineNo := index, pos := pos);
      }
    }
  }

  lemma LinesStep(text: string, pos: nat)
    requires pos < |text|
    ensures LinesFrom(text, pos) == [LineAt(text, pos)] + LinesFrom(text, LineEnd(text, pos))
  {
  }

  lemma ProcessNothing(index: int, pos: nat, skipped: nat)
    ensures Process([], index, pos, skipped) == ([], skipped)
  {
  }

  lemma ProcessStep(line: string, lines: seq<string>, index: int, pos: nat, skipped: nat)
    ensures var rest := Process(lines, index + 1, pos + |line|, 0);
      Process([line] + lines, index, pos, skipped) ==
      if EndsInNewline(Trim(line)) || skipped > MAX_SKIPPED
      then ([Numbered(index, pos, Trim(line))] + rest.0, rest.1)
      else Process(lines, index + 1, pos + |line|, skipped + 1)
  {
    hide Trim, EndsInNewline;
    assert ([line] + lines)[1..] == lines;
  }

  // ---- One pass

  ghost predicate AllWhole(lines: seq<string>) {
    forall i :: 0 <= i < |lines| ==> Whole(lines[i])
  }

  /** A line as a file yields it: a newline can only be its last character. */
  ghost predicate Proper(line: string) {
    line != "" && forall k :: 0 <= k < |line| - 1 ==> line[k] != '\n'
  }

  ghost predicate AllProper(lines: seq<string>) {
    forall i :: 0 <= i < |lines| ==> Proper(lines[i])
  }

  /** `h` is `lines` numbered from `index` on. */
  ghost predicate Numbering(h: seq<Numbered>, lines: seq<string>, index: int) {
    |h| == |lines| && forall i :: 0 <= i < |lines| ==> h[i].index == index + i && h[i].line == lines[i]
  }

  lemma {:induction false} ProcessesAtMostAll(lines: seq<string>, index: int, pos: nat, skipped: nat)
    ensures |Process(lines, index, pos, skipped).0| <= |lines|
    decreases |lines|
  {
    if lines != [] {
      ProcessesAtMostAll(lines[1..], index + 1, pos + |lines[0]|, 0);
      ProcessesAtMostAll(lines[1..], index + 1, pos + |lines[0]|, skipped + 1);
    }
  }

  /**
   A pass processes every line it reads exactly when each of them is complete and within the
   size limit, except that after more than twenty skipped lines the first is processed as it is.
   If they all are, their numbers are consecutive and no line counts as skipped any more.
   */
  lemma {:induction false} ProcessesAll(lines: seq<string>, index: int, pos: nat, skipped: nat)
    requires AllProper(lines)
    ensures |Process(lines, index, pos, skipped).0| == |lines|
       <==> AllWhole(lines) || (skipped > MAX_SKIPPED && lines != [] && AllWhole(lines[1..]))
    ensures AllWhole(lines) ==> Numbering(Process(lines, index, pos, skipped).0, lines, index)
    ensures AllWhole(lines) ==> Process(lines, index, pos, skipped).1 == if lines == [] then skipped else 0
    decreases |lines|
  {
    hide Trim, Whole, EndsInNewline, Process;
    if lines == [] {
      ProcessNothing(index, pos, skipped);
    } else {
      TrimmedLine(lines[0]);
      var next := pos + |lines[0]|;
      assert lines == [lines[0]] + lines[1..];
      ProcessStep(lines[0], lines[1..], index, pos, skipped);
      if Whole(lines[0]) || skipped > MAX_SKIPPED {
        ProcessesAll(lines[1..], index + 1, next, 0);
      } else {
        ProcessesAtMostAll(lines[1..], index + 1, next, skipped + 1);
      }
    }
  }

  /** How many lines count as skipped before line `i`. */
  function SkippedBefore(lines: seq<string>, i: nat, skipped: nat): (n: nat)
    requires i <= |lines|
    decreases i
  {
    if i == 0 then skipped
    else
      var n := SkippedBefore(lines, i - 1, skipped);
      if EndsInNewline(Trim(lines[i - 1])) || n > MAX_SKIPPED then 0 else n + 1
  }

  ghost predicate HasNumber(h: seq<Numbered>, index: int) {
    exists k :: 0 <= k < |h| && h[k].index == index
  }

  lemma {:induction false} NumbersFrom(lines: seq<string>, index: int, pos: nat, skipped: nat)
    ensures var h := Process(lines, index, pos, skipped).0;
      forall k :: 0 <= k < |h| ==> index <= h[k].index < index + |lines|
    decreases |lines|
  {
    hide Trim, EndsInNewline, Process;
    if lines == [] {
      ProcessNothing(index, pos, skipped);
    } else {
      assert lines == [lines[0]] + lines[1..];
      ProcessStep(lines[0], lines[1..], index, pos, skipped);
      NumbersFrom(lines[1..], index + 1, pos + |lines[0]|, 0);
      NumbersFrom(lines[1..], index + 1, pos + |lines[0]|, skipped + 1);
    }
  }

  lemma {:induction false} SkippedBeforeTail(lines: seq<string>, i: nat, skipped: nat)
    requires 0 < i <= |lines|
    ensures SkippedBefore(lines, i, skipped) == SkippedBefore(lines[1..], i - 1, SkippedBefore(lines, 1, skipped))
    decreases i
  {
    hide Trim, EndsInNewline;
    if i > 1 {
      SkippedBeforeTail(lines, i - 1, skipped);
      assert lines[1..][i - 2] == lines[i - 1];
    }
  }

  /**
   Which lines a pass leaves out: line `i` is processed exactly if it is complete within the
   size limit or more than twenty lines have been skipped just before it.
   */
  lemma {:induction false} ProcessedIff(lines: seq<string>, index: int, pos: nat, skipped: nat, i: nat)
    requires i < |lines| && AllProper(lines)
    ensures HasNumber(Process(lines, index, pos, skipped).0, index + i)
       <==> Whole(lines[i]) || SkippedBefore(lines, i, skipped) > 20
    decreases |lines|
  {
    hide Trim, Whole, EndsInNewline, Process, HasNumber;
    var rest, next := lines[1..], pos + |lines[0]|;
    TrimmedLine(lines[0]);
    assert lines == [lines[0]] + rest;
    ProcessStep(lines[0], rest, index, pos, skipped);
    var n := SkippedBefore(lines, 1, skipped);
    HeadNumber(Numbered(index, pos, Trim(lines[0])), Process(rest, index + 1, next, n).0, index + i);
    if i == 0 {
      NoNumberBefore(rest, index + 1, next, n, index);
    } else {
      ProcessedIff(rest, index + 1, next, n, i - 1);
      SkippedBeforeTail(lines, i, skipped);
    }
  }

  lemma HeadNumber(head: Numbered, rest: seq<Numbered>, index: int)
    ensures HasNumber([head] + rest, index) <==> head.index == index || HasNumber(rest, index)
  {
    var h := [head] + rest;
    assert h[0] == head && forall k :: 0 <= k < |rest| ==> rest[k] == h[k + 1];
  }

  lemma NoNumberBefore(lines: seq<string>, index: int, pos: nat, skipped: nat, i: int)
    requires i < index
    ensures !HasNumber(Process(lines, index, pos, skipped).0, i)
  {
    hide Process;
    NumbersFrom(lines, index, pos, skipped);
  }

  function Length(lines: seq<string>): (n: nat) {
    if lines == [] then 0 else |lines[0]| + Length(lines[1..])
  }

  /** Every processed line is one of those read, under its number, at its offset and cut to the size limit. */
  lemma {:induction false} ProcessedLines(lines: seq<string>, index: int, pos: nat, skipped: nat, k: nat)
    requires k < |Process(lines, index, pos, skipped).0|
    ensures var h := Process(lines, index, pos, skipped).0[k];
      var i := h.index - index;
      0 <= i < |lines| && h == Numbered(index + i, pos + Length(lines[..i]), Trim(lines[i]))
    decreases |lines|
  {
    hide Trim, EndsInNewline, Process;
    if lines == [] {
      ProcessNothing(index, pos, skipped);
      assert false;
    } else {
      var rest, next := lines[1..], pos + |lines[0]|;
      assert lines == [lines[0]] + rest;
      ProcessStep(lines[0], rest, index, pos, skipped);
      var taken := EndsInNewline(Trim(lines[0])) || skipped > MAX_SKIPPED;
      if taken && k == 0 {
        assert lines[..0] == [];
      } else {
        var n := if taken then 0 else skipped + 1;
        var j := if taken then k - 1 else k;
        ProcessedLines(rest, index + 1, next, n, j);
        var i := Process(rest, index + 1, next, n).0[j].index - index - 1;
        assert lines[..i + 1][0] == lines[0] && lines[..i + 1][1..] == rest[..i];
      }
    }
  }

  /** The skip counter a pass leaves is the one after its last line; it goes on with the next pass. */
  lemma {:induction false} CounterIsKept(lines: seq<string>, index: int, pos: nat, skipped: nat)
    ensures Process(lines, index, pos, skipped).1 == SkippedBefore(lines, |lines|, skipped)
    decreases |lines|
  {
    hide Trim, EndsInNewline, Process;
    if lines == [] {
      ProcessNothing(index, pos, skipped);
    } else {
      assert lines == [lines[0]] + lines[1..];
      ProcessStep(lines[0], lines[1..], index, pos, skipped);
      SkippedBeforeTail(lines, |lines|, skipped);
      CounterIsKept(lines[1..], index + 1, pos + |lines[0]|, SkippedBefore(lines, 1, skipped));
    }
  }

  lemma PassKeepsCounter(c: Cursor, text: string)
    ensures Pass(c, text).0.skipped == SkippedBefore(Unread(c, text), |Unread(c, text)|, c.skipped)
  {
    hide Process, Unread, SkippedBefore;
    CounterIsKept(Unread(c, text), c.lineNo + 1, c.pos, c.skipped);
  }

  lemma TrimmedLine(line: string)
    requires Proper(line)
    ensures EndsInNewline(Trim(line)) <==> Whole(line)
    ensures Whole(line) ==> Trim(line) == line
  {
  }

  lemma {:induction false} LinesAreProper(text: string, pos: nat)
    requires pos <= |text|
    ensures AllProper(LinesFrom(text, pos))
    decreases |text| - pos
  {
    if pos < |text| {
      LinesAreProper(text, LineEnd(text, pos));
      forall k | 0 <= k < |LineAt(text, pos)| - 1 ensures LineAt(text, pos)[k] != '\n' {
        LineHasNoInnerNewline(text, pos, pos + k);
      }
    }
  }

  /** A pass that reads something leaves the cursor where it is exactly when the last number it gives is zero. */
  lemma CursorStaysIff(c: Cursor, text: string)
    requires c.pos < |text|
    ensures var c' := Pass(c, text).0;
      && (c'.pos == c.pos <==> c.lineNo + |LinesFrom(text, c.pos)| == 0)
      && (c'.pos != c.pos ==> c'.pos == |text| && c'.lineNo == c.lineNo + |LinesFrom(text, c.pos)|)
      && (c'.pos == c.pos ==> c'.lineNo == c.lineNo)
  {
    hide Process, LinesFrom;
    assert LinesFrom(text, c.pos) != [];
  }

  /**
   What becomes of an incomplete or oversized line: the pass that meets it does not process it,
   unless more than twenty were skipped just before, and moves past it, unless the last number is zero.
   */
  lemma IncompleteLineIsLost(c: Cursor, text: string, i: nat)
    requires c.pos < |text| && i < |LinesFrom(text, c.pos)| && !Whole(LinesFrom(text, c.pos)[i])
    ensures var lines := LinesFrom(text, c.pos);
      && (HasNumber(Pass(c, text).1, c.lineNo + 1 + i) <==> SkippedBefore(lines, i, c.skipped) > 20)
      && (Pass(c, text).0.pos == |text| <==> c.lineNo + |lines| != 0)
  {
    hide Process, LinesFrom, Whole, Pass, HasNumber, SkippedBefore;
    LinesAreProper(text, c.pos);
    ProcessedIff(LinesFrom(text, c.pos), c.lineNo + 1, c.pos, c.skipped, i);
    PassProcesses(c, text);
    CursorStaysIff(c, text);
  }

  lemma PassProcesses(c: Cursor, text: string)
    requires c.pos <= |text|
    ensures Pass(c, text).1 == Process(LinesFrom(text, c.pos), c.lineNo + 1, c.pos, c.skipped).0
  {
    hide Process, LinesFrom;
  }

  // ---- Where the processed lines stand

  /** Every line lies between the offsets `low` and `high` and has a number from `first` on and below `bound`. */
  ghost predicate Within(h: seq<Numbered>, low: nat, high: nat, first: int, bound: int) {
    forall k :: 0 <= k < |h| ==>
      low <= h[k].pos < h[k].pos + |h[k].line| <= high && first <= h[k].index < bound
  }

  ghost predicate Increasing(h: seq<Numbered>) {
    forall j, k :: 0 <= j < k < |h| ==> h[j].pos < h[k].pos && h[j].index < h[k].index
  }

  lemma {:induction false} PassStaysWithin(text: string, pos: nat, index: int, skipped: nat)
    requires pos <= |text|
    ensures var lines := LinesFrom(text, pos);
      var h := Process(lines, index, pos, skipped).0;
      Within(h, pos, |text|, index, index + |lines|) && Increasing(h)
    decreases |text| - pos
  {
    hide LinesFrom, Process, LineEnd, EndsInNewline;
    if pos == |text| {
      ProcessNothing(index, pos, skipped);
    } else {
      var e := LineEnd(text, pos);
      LinesStep(text, pos);
      ProcessStep(LineAt(text, pos), LinesFrom(text, e), index, pos, skipped);
      PassStaysWithin(text, e, index + 1, 0);
      PassStaysWithin(text, e, index + 1, skipped + 1);
    }
  }

  /** `line`, read at `q`, was processed as it stands. */
  ghost predicate ProcessedAt(h: seq<Numbered>, q: nat, line: string) {
    exists k :: 0 <= k < |h| && h[k].pos == q && h[k].line == line
  }

  lemma HeadProcessed(head: Numbered, rest: seq<Numbered>, q: nat, line: string)
    ensures ProcessedAt([head] + rest, q, line) <==> head == Numbered(head.index, q, line) || ProcessedAt(rest, q, line)
  {
    var h := [head] + rest;
    assert forall k :: 0 <= k < |rest| ==> rest[k] == h[k + 1];
    if head == Numbered(head.index, q, line) {
      assert h[0] == head;
    }
  }

  /** A line of the log that has been written whole. */
  ghost predicate Complete(text: string, q: int) {
    IsLineStart(text, q) && text[LineEnd(text, q) - 1] == '\n'
  }

  /** A complete line that a pass reads from its start is processed whole exactly if it is within the size limit. */
  lemma {:induction false} PassProcessesWhole(text: string, pos: nat, index: int, skipped: nat, q: nat)
    requires pos <= q && Complete(text, q)
    ensures ProcessedAt(Process(LinesFrom(text, pos), index, pos, skipped).0, q, LineAt(text, q))
       <==> |LineAt(text, q)| <= MAX_LINE
    decreases q - pos
  {
    hide LinesFrom, Process, ProcessedAt, LineEnd;
    var e, line := LineEnd(text, pos), Trim(LineAt(text, pos));
    var rest := LinesFrom(text, e);
    LinesStep(text, pos);
    ProcessStep(LineAt(text, pos), rest, index, pos, skipped);
    HeadProcessed(Numbered(index, pos, line), Process(rest, index + 1, e, 0).0, q, LineAt(text, q));
    if pos == q {
      LaterLinesOnly(text, e, index + 1, 0, q, LineAt(text, q));
      LaterLinesOnly(text, e, index + 1, skipped + 1, q, LineAt(text, q));
    } else {
      LineEndBound(text, pos, q - 1);
      PassProcessesWhole(text, e, index + 1, 0, q);
      PassProcessesWhole(text, e, index + 1, skipped + 1, q);
    }
  }

  lemma LaterLinesOnly(text: string, pos: nat, index: int, skipped: nat, q: nat, line: string)
    requires q < pos <= |text|
    ensures !ProcessedAt(Process(LinesFrom(text, pos), index, pos, skipped).0, q, line)
  {
    hide LinesFrom, Process;
    PassStaysWithin(text, pos, index, skipped);
  }

  // ---- Runs of appends and passes

  datatype Step = Append(chunk: string) | Read

  /**
   `handled` is what the passes that moved the cursor processed, `repeated` what the others did, and
   `stops` where each of the former ended; `solo` counts the passes made while the log held exactly one line.
   */
  datatype State = State(text: string, cursor: Cursor, handled: seq<Numbered>, repeated: seq<Numbered>,
                         stops: seq<nat>, solo: nat)

  function Apply(s: State, step: Step): (s': State)
    requires s.cursor.pos <= |s.text|
    ensures s'.cursor.pos <= |s'.text|
  {
    match step
    case Append(chunk) => s.(text := s.text + chunk)
    case Read =>
      var (c, h) := Pass(s.cursor, s.text);
      var solo := if |LinesFrom(s.text, 0)| == 1 then s.solo + 1 else s.solo;
      if Moves(s.cursor, s.text) then
        s.(cursor := c, handled := s.handled + h, stops := s.stops + [|s.text|], solo := solo)
      else s.(cursor := c, repeated := s.repeated + h, solo := solo)
  }

  function Exec(steps: seq<Step>): (s: State)
    ensures s.cursor.pos <= |s.text|
  {
    if steps == [] then State("", START, [], [], [], 0)
    else Apply(Exec(steps[..|steps| - 1]), steps[|steps| - 1])
  }

  // ---- Every run

  /** A pass that moved the cursor ended inside the line from `q` to `e`. */
  ghost predicate CutBy(stops: seq<nat>, q: int, e: int) {
    exists k :: 0 <= k < |stops| && q < stops[k] < e
  }

  /** The cursor stands where the last pass that moved it ended, and knows that it has read two lines or none. */
  ghost predicate CursorOk(s: State) {
    && s.cursor.pos <= |s.text|
    && (if s.stops == [] then s.cursor.pos == 0 && s.cursor.lineNo == -1
        else s.cursor.pos == s.stops[|s.stops| - 1] > 0 && s.cursor.lineNo > 0)
    && (forall k :: 0 <= k < |s.stops| ==> s.stops[k] <= s.cursor.pos)
  }

  /** No line is processed twice by passes that move the cursor; the others read the first line only. */
  ghost predicate OnceEach(s: State) {
    && Increasing(s.handled)
    && Within(s.handled, 0, s.cursor.pos, 0, s.cursor.lineNo + 1)
    && (forall k :: 0 <= k < |s.repeated| ==> s.repeated[k].pos == 0 && s.repeated[k].index == 0)
  }

  /** What the passes owe the line at `q`. */
  ghost predicate Owed(s: State, q: nat)
    requires Complete(s.text, q)
  {
    ProcessedAt(s.handled, q, LineAt(s.text, q)) <==>
      |LineAt(s.text, q)| <= MAX_LINE && !CutBy(s.stops, q, LineEnd(s.text, q))
  }

  ghost predicate AllOwed(s: State) {
    forall q: nat :: Complete(s.text, q) && LineEnd(s.text, q) <= s.cursor.pos ==> Owed(s, q)
  }

  ghost predicate RunOk(s: State) {
    CursorOk(s) && OnceEach(s) && AllOwed(s)
  }

  lemma CompleteInPrefix(text: string, chunk: string, q: nat)
    requires Complete(text + chunk, q) && LineEnd(text + chunk, q) <= |text|
    ensures Complete(text, q)
    ensures LineEnd(text, q) == LineEnd(text + chunk, q) && LineAt(text, q) == LineAt(text + chunk, q)
  {
    var all := text + chunk;
    var e := LineEnd(all, q);
    LineEndOfPrefix(all, q, e);
    LineEndOfPrefix(text, q, e);
    assert all[..e] == text[..e];
    assert all[q..e] == text[q..e];
  }

  lemma AppendKeepsRun(s: State, chunk: string)
    requires RunOk(s)
    ensures RunOk(Apply(s, Append(chunk)))
  {
    hide LineEnd, ProcessedAt, LineAt;
    var s' := Apply(s, Append(chunk));
    forall q: nat | Complete(s'.text, q) && LineEnd(s'.text, q) <= s'.cursor.pos ensures Owed(s', q) {
      CompleteInPrefix(s.text, chunk, q);
      assert Owed(s, q);
    }
  }

  lemma ConcatProcessed(a: seq<Numbered>, b: seq<Numbered>, q: nat, line: string)
    ensures ProcessedAt(a + b, q, line) <==> ProcessedAt(a, q, line) || ProcessedAt(b, q, line)
  {
    var h := a + b;
    assert forall k :: 0 <= k < |a| ==> a[k] == h[k];
    assert forall k :: 0 <= k < |b| ==> b[k] == h[k + |a|];
  }

  lemma OneMoreStop(stops: seq<nat>, stop: nat, q: int, e: int)
    ensures CutBy(stops + [stop], q, e) <==> CutBy(stops, q, e) || q < stop < e
  {
    var all := stops + [stop];
    assert forall k :: 0 <= k < |stops| ==> stops[k] == all[k];
    assert all[|stops|] == stop;
  }

  /** After a pass that moved the cursor, the line at `q` has got what it is owed. */
  lemma ReadPays(s: State, q: nat)
    requires RunOk(s) && Moves(s.cursor, s.text) && Complete(s.text, q)
    ensures Owed(Apply(s, Read), q)
  {
    hide Process, LinesFrom, LineEnd, Increasing, Trim, ProcessedAt, CutBy, Complete;
    var text, pos, e, line := s.text, s.cursor.pos, LineEnd(s.text, q), LineAt(s.text, q);
    var h := Pass(s.cursor, text).1;
    ConcatProcessed(s.handled, h, q, line);
    OneMoreStop(s.stops, |text|, q, e);
    CompleteBounds(text, q);
    if e <= pos {
      assert Owed(s, q);
      LaterLinesOnly(text, pos, s.cursor.lineNo + 1, s.cursor.skipped, q, line);
    } else {
      NotProcessedYet(s, q, line);
      if q < pos {
        LaterLinesOnly(text, pos, s.cursor.lineNo + 1, s.cursor.skipped, q, line);
        StoppedInside(s, q, e);
      } else {
        PassProcessesWhole(text, pos, s.cursor.lineNo + 1, s.cursor.skipped, q);
        NotStoppedInside(s, q, e);
      }
    }
  }

  lemma CompleteBounds(text: string, q: nat)
    requires Complete(text, q)
    ensures q < LineEnd(text, q) <= |text|
  {
  }

  lemma NotProcessedYet(s: State, q: nat, line: string)
    requires OnceEach(s) && q + |line| > s.cursor.pos
    ensures !ProcessedAt(s.handled, q, line)
  {
    hide Increasing;
  }

  lemma StoppedInside(s: State, q: nat, e: nat)
    requires CursorOk(s) && q < s.cursor.pos < e
    ensures CutBy(s.stops, q, e)
  {
    assert s.stops[|s.stops| - 1] == s.cursor.pos;
  }

  lemma NotStoppedInside(s: State, q: nat, e: nat)
    requires CursorOk(s) && s.cursor.pos <= q
    ensures !CutBy(s.stops, q, e)
  {
  }

  /** A pass that leaves the cursor is made at the start of a log with one line, or has nothing to read. */
  lemma StaysAtStart(s: State)
    requires CursorOk(s) && !Moves(s.cursor, s.text)
    ensures Unread(s.cursor, s.text) == []
      || (s.cursor.lineNo == -1 && s.cursor.pos == 0 && |LinesFrom(s.text, 0)| == 1)
  {
    hide LinesFrom;
  }

  lemma JoinOrdered(a: seq<Numbered>, b: seq<Numbered>, mid: nat, high: nat, n: int, bound: int)
    requires Increasing(a) && Within(a, 0, mid, 0, n) && Increasing(b) && Within(b, mid, high, n, bound)
    requires mid <= high && 0 <= n <= bound
    ensures Increasing(a + b) && Within(a + b, 0, high, 0, bound)
  {
  }

  lemma OnceEachAfterRead(s: State)
    requires CursorOk(s) && OnceEach(s)
    ensures OnceEach(Apply(s, Read))
  {
    hide Process, LinesFrom, Increasing;
    var c, h := s.cursor, Pass(s.cursor, s.text).1;
    PassStaysWithin(s.text, c.pos, c.lineNo + 1, c.skipped);
    if Moves(c, s.text) {
      JoinOrdered(s.handled, h, c.pos, |s.text|, c.lineNo + 1, c.lineNo + 1 + |Unread(c, s.text)|);
    } else {
      StaysAtStart(s);
      AtMostOneLine(Unread(c, s.text), c.lineNo + 1, c.pos, c.skipped);
    }
  }

  lemma AtMostOneLine(lines: seq<string>, index: int, pos: nat, skipped: nat)
    requires |lines| <= 1
    ensures var h := Process(lines, index, pos, skipped).0;
      forall k :: 0 <= k < |h| ==> h[k].pos == pos && h[k].index == index
    ensures lines == [] ==> Process(lines, index, pos, skipped).0 == []
  {
  }

  lemma ReadKeepsRun(s: State)
    requires RunOk(s)
    ensures RunOk(Apply(s, Read))
  {
    hide Process, LinesFrom, AllOwed, OnceEach;
    OnceEachAfterRead(s);
    OwedAfterRead(s);
  }

  lemma OwedAfterRead(s: State)
    requires RunOk(s)
    ensures AllOwed(Apply(s, Read))
  {
    hide Pass, LineEnd;
    var s' := Apply(s, Read);
    if Moves(s.cursor, s.text) {
      forall q: nat | Complete(s'.text, q) && LineEnd(s'.text, q) <= s'.cursor.pos ensures Owed(s', q) {
        ReadPays(s, q);
      }
    } else {
      SameWhenStaying(s);
      forall q: nat | Complete(s'.text, q) && LineEnd(s'.text, q) <= s'.cursor.pos ensures Owed(s', q) {
        assert Owed(s, q);
      }
    }
  }

  lemma SameWhenStaying(s: State)
    requires s.cursor.pos <= |s.text| && !Moves(s.cursor, s.text)
    ensures Apply(s, Read).cursor.pos == s.cursor.pos
  {
  }

  lemma {:induction false} EveryRun(steps: seq<Step>)
    ensures RunOk(Exec(steps))
  {
    hide RunOk, Apply;
    if steps == [] {
      NothingRead();
    } else {
      var n := |steps| - 1;
      EveryRun(steps[..n]);
      match steps[n]
      case Append(chunk) => AppendKeepsRun(Exec(steps[..n]), chunk);
      case Read => ReadKeepsRun(Exec(steps[..n]));
    }
  }

  lemma NothingRead()
    ensures RunOk(State("", START, [], [], [], 0))
  {
  }

  /**
   In every run, whatever chunks the log grows by and whenever it is read: a complete line the cursor
   has passed was processed whole exactly if it is within the size limit and no pass that
   moved the cursor ended inside it.
   */
  lemma ProcessedWholeIff(steps: seq<Step>, q: nat)
    requires var s := Exec(steps); Complete(s.text, q) && LineEnd(s.text, q) <= s.cursor.pos
    ensures var s := Exec(steps);
      ProcessedAt(s.handled, q, LineAt(s.text, q)) <==>
        |LineAt(s.text, q)| <= MAX_LINE && !CutBy(s.stops, q, LineEnd(s.text, q))
  {
    hide Exec, Complete, LineEnd;
    EveryRun(steps);
    assert Owed(Exec(steps), q);
  }

  /** The state after a pass that moves the cursor, as far as the cut lines depend on it. */
  lemma ReadMoves(steps: seq<Step>)
    ensures var s, s' := Exec(steps), Exec(steps + [Read]);
      && s'.text == s.text
      && (Moves(s.cursor, s.text) ==> s'.cursor.pos == |s.text| && s'.stops == s.stops + [|s.text|])
  {
    hide Process, LinesFrom;
    assert (steps + [Read])[..|steps|] == steps;
  }

  lemma AppendGrows(steps: seq<Step>, chunk: string)
    ensures Exec(steps + [Append(chunk)]) == Exec(steps).(text := Exec(steps).text + chunk)
  {
    assert (steps + [Append(chunk)])[..|steps|] == steps;
  }

  lemma TwoLinesOrMore(text: string)
    requires text != "" && LineEnd(text, 0) < |text|
    ensures |LinesFrom(text, 0)| >= 2
  {
    assert |LinesFrom(text, LineEnd(text, 0))| >= 1;
  }

  lemma Beginning()
    ensures Exec([]) == State("", START, [], [], [], 0)
  {
  }

  /** Two chunks, read one after the other, the first of more than one line. */
  lemma TwoReads(first: string, more: string)
    requires first != "" && LineEnd(first, 0) < |first| && more != ""
    ensures var s := Exec([Append(first), Read, Append(more), Read]);
      s.text == first + more && s.cursor.pos == |first + more| && s.stops == [|first|, |first + more|]
  {
    hide Exec, LinesFrom, LineEnd, AllOwed, OnceEach;
    var one := [Append(first)];
    var two := one + [Read];
    var three := two + [Append(more)];
    assert [] + one == one && three + [Read] == [Append(first), Read, Append(more), Read];
    Beginning();
    AppendGrows([], first);
    assert "" + first == first;
    TwoLinesOrMore(first);
    ReadMoves(one);
    AppendGrows(two, more);
    EveryRun(two);
    assert LinesFrom(first + more, |first|) != [];
    ReadMoves(three);
  }

  /** Such a line: `cd` is read when only its first half has been written, and is never processed whole. */
  lemma LostLine()
    ensures var s := Exec([Append("a\nb\nc"), Read, Append("d\n"), Read]);
      && s.text == "a\nb\ncd\n" && s.cursor.pos == |s.text| && Complete(s.text, 4) && LineAt(s.text, 4) == "cd\n"
      && !ProcessedAt(s.handled, 4, "cd\n")
  {
    hide Exec, ProcessedAt, LineEnd;
    var first, more, text := "a\nb\nc", "d\n", "a\nb\ncd\n";
    assert first + more == text;
    LineEndIs(first, 0, 1);
    TwoReads(first, more);
    LineEndIs(text, 4, 6);
    assert LineAt(text, 4) == "cd\n";
    var steps := [Append(first), Read, Append(more), Read];
    assert Exec(steps).stops[0] == 5;
    ProcessedWholeIff(steps, 4);
  }

  /** In every run the passes that move the cursor process no line twice, and number the lines upwards. */
  lemma NeverProcessedTwice(steps: seq<Step>)
    ensures var s := Exec(steps);
      && Increasing(s.handled)
      && (forall k :: 0 <= k < |s.repeated| ==> s.repeated[k].pos == 0 && s.repeated[k].index == 0)
  {
    EveryRun(steps);
  }

  /** A pass catches up with the log exactly unless it is the first to find anything and finds one line. */
  lemma PassCatchesUp(steps: seq<Step>)
    ensures var before, s := Exec(steps), Exec(steps + [Read]);
      s.cursor.pos == |s.text| <==> before.cursor.pos != 0 || |LinesFrom(s.text, 0)| != 1
  {
    hide LinesFrom, Process;
    assert (steps + [Read])[..|steps|] == steps;
    var before := Exec(steps);
    EveryRun(steps);
    if !Moves(before.cursor, before.text) {
      StaysAtStart(before);
    }
  }

  // ---- Runs that read whole lines only

  /** Whenever a pass is made, the log consists of whole lines; chunks may be cut anywhere. */
  ghost predicate Orderly(steps: seq<Step>) {
    steps == [] ||
    var n := |steps| - 1;
    Orderly(steps[..n]) && (steps[n].Read? ==> AllWhole(LinesFrom(Exec(steps[..n]).text, 0)))
  }

  /** The lines the cursor has passed. */
  function Passed(s: State): (ls: seq<string>)
    requires s.cursor.pos <= |s.text|
  {
    LinesFrom(s.text[..s.cursor.pos], 0)
  }

  ghost predicate AtBoundary(text: string, pos: nat) {
    pos <= |text| && (pos == 0 || text[pos - 1] == '\n')
  }

  /** Each passed line was processed once, under its own number, apart from `solo` extra readings of the first. */
  ghost predicate ReadOnce(s: State)
    requires s.cursor.pos <= |s.text|
  {
    && s.cursor.skipped == 0
    && AtBoundary(s.text, s.cursor.pos)
    && s.cursor.lineNo + 1 == |Passed(s)| != 1
    && AllWhole(Passed(s))
    && (s.solo > 0 ==> AtBoundary(s.text, LineEnd(s.text, 0)) && 0 < LineEnd(s.text, 0) && Whole(LineAt(s.text, 0)))
    && |s.repeated| == s.solo
    && (forall i :: 0 <= i < s.solo ==> s.repeated[i].index == 0 && s.repeated[i].line == LineAt(s.text, 0))
    && Numbering(s.handled, Passed(s), 0)
  }

  lemma LineEndOfPrefix(text: string, p: nat, pos: nat)
    requires p < pos <= |text| && text[pos - 1] == '\n'
    ensures LineEnd(text[..pos], p) == LineEnd(text, p) <= pos
    decreases pos - p
  {
    if text[p] != '\n' {
      LineEndOfPrefix(text, p + 1, pos);
    }
  }

  lemma SliceOfPrefix(text: string, pos: nat, p: nat, e: nat)
    requires p <= e <= pos <= |text|
    ensures text[..pos][p..e] == text[p..e]
  {
  }

  lemma {:induction false} LinesSplit(text: string, p: nat, pos: nat)
    requires p <= pos <= |text| && (pos == p || text[pos - 1] == '\n')
    ensures LinesFrom(text, p) == LinesFrom(text[..pos], p) + LinesFrom(text, pos)
    decreases pos - p
  {
    hide LineEnd, LinesFrom;
    if p == pos {
      assert LinesFrom(text[..pos], p) == [];
    } else {
      LineEndOfPrefix(text, p, pos);
      LinesStep(text, p);
      LinesStep(text[..pos], p);
      SliceOfPrefix(text, pos, p, LineEnd(text, p));
      LinesSplit(text, LineEnd(text, p), pos);
    }
  }

  lemma {:induction false} WholeLogEndsInNewline(text: string, pos: nat)
    requires pos < |text| && AllWhole(LinesFrom(text, pos))
    ensures text[|text| - 1] == '\n'
    decreases |text| - pos
  {
    var ls := LinesFrom(text, pos);
    assert Whole(ls[0]);
    if LineEnd(text, pos) < |text| {
      assert ls[1..] == LinesFrom(text, LineEnd(text, pos));
      WholeLogEndsInNewline(text, LineEnd(text, pos));
    }
  }

  lemma AppendKeeps(s: State, chunk: string)
    requires s.cursor.pos <= |s.text| && ReadOnce(s)
    ensures ReadOnce(Apply(s, Append(chunk)))
  {
    var s' := Apply(s, Append(chunk));
    assert s'.text[..s.cursor.pos] == s.text[..s.cursor.pos];
    if s.solo > 0 {
      var e := LineEnd(s.text, 0);
      LineEndOfPrefix(s'.text, 0, e);
      LineEndOfPrefix(s.text, 0, e);
      assert s'.text[..e] == s.text[..e];
      assert LineAt(s'.text, 0) == LineAt(s.text, 0);
    }
  }

  /** What a pass over whole lines does: it reads on from the passed lines, and numbers what it reads. */
  lemma PassOverWholeLines(s: State)
    requires s.cursor.pos <= |s.text| && ReadOnce(s) && AllWhole(LinesFrom(s.text, 0))
    ensures var lines := LinesFrom(s.text, s.cursor.pos);
      && LinesFrom(s.text, 0) == Passed(s) + lines
      && Numbering(Pass(s.cursor, s.text).1, lines, |Passed(s)|)
      && Pass(s.cursor, s.text).0 == if lines == [] || |Passed(s)| + |lines| == 1 then s.cursor
                                     else Cursor(s.cursor.lineNo + |lines|, |s.text|, 0)
  {
    hide Process, LinesFrom, LineEnd, Whole;
    var lines, all := LinesFrom(s.text, s.cursor.pos), LinesFrom(s.text, 0);
    LinesSplit(s.text, 0, s.cursor.pos);
    assert forall i :: 0 <= i < |lines| ==> lines[i] == all[|Passed(s)| + i];
    LinesAreProper(s.text, s.cursor.pos);
    ProcessesAll(lines, s.cursor.lineNo + 1, s.cursor.pos, 0);
  }

  /** A pass that finds a log of one line processes it again and stays. */
  lemma ReadSolo(s: State)
    requires s.cursor.pos <= |s.text| && ReadOnce(s) && AllWhole(LinesFrom(s.text, 0)) && |LinesFrom(s.text, 0)| == 1
    ensures ReadOnce(Apply(s, Read))
  {
    hide LinesFrom, LineEnd, Pass, Whole, LineAt;
    PassOverWholeLines(s);
    FirstWhole(s.text);
    assert Passed(s) == [];
    var s' := Apply(s, Read);
    assert s'.cursor == s.cursor && s'.handled == s.handled && s'.repeated == s.repeated + Pass(s.cursor, s.text).1;
  }

  /** Any other pass numbers the new lines after the passed ones. */
  lemma ReadMore(s: State)
    requires s.cursor.pos <= |s.text| && ReadOnce(s) && AllWhole(LinesFrom(s.text, 0)) && |LinesFrom(s.text, 0)| != 1
    ensures ReadOnce(Apply(s, Read))
  {
    hide LinesFrom, LineEnd, Pass, Whole, LineAt;
    var lines, all := LinesFrom(s.text, s.cursor.pos), LinesFrom(s.text, 0);
    PassOverWholeLines(s);
    var s' := Apply(s, Read);
    if lines == [] {
      assert all == Passed(s) && s'.repeated == s.repeated + [] == s.repeated && s' == s;
    } else {
      assert s.text[..|s.text|] == s.text;
      WholeLogEndsInNewline(s.text, 0);
      assert Passed(s') == all;
      assert s'.handled == s.handled + Pass(s.cursor, s.text).1 && s'.repeated == s.repeated && s'.solo == s.solo;
      assert Numbering(s'.handled, all, 0);
    }
  }

  lemma ReadKeeps(s: State)
    requires s.cursor.pos <= |s.text| && ReadOnce(s) && AllWhole(LinesFrom(s.text, 0))
    ensures ReadOnce(Apply(s, Read))
  {
    hide ReadOnce, Apply, LinesFrom, AllWhole;
    if |LinesFrom(s.text, 0)| == 1 {
      ReadSolo(s);
    } else {
      ReadMore(s);
    }
  }

  lemma FirstWhole(text: string)
    requires text != "" && AllWhole(LinesFrom(text, 0))
    ensures AtBoundary(text, LineEnd(text, 0)) && 0 < LineEnd(text, 0)
    ensures LinesFrom(text, 0)[0] == LineAt(text, 0) && Whole(LineAt(text, 0))
  {
    assert Whole(LinesFrom(text, 0)[0]);
  }

  /** Every orderly run reads each line exactly once, but for the passes that found a log of one line. */
  lemma {:induction false} EveryLineOnce(steps: seq<Step>)
    requires Orderly(steps)
    ensures ReadOnce(Exec(steps))
  {
    if steps != [] {
      var n := |steps| - 1;
      EveryLineOnce(steps[..n]);
      match steps[n]
      case Append(chunk) => AppendKeeps(Exec(steps[..n]), chunk);
      case Read => ReadKeeps(Exec(steps[..n]));
    }
  }

  /** The promise that a line is processed once holds exactly when no pass found a log of one line. */
  lemma OnceExactlyWithoutSolo(steps: seq<Step>)
    requires Orderly(steps)
    ensures var s := Exec(steps); Numbering(s.repeated + s.handled, Passed(s), 0) <==> s.solo == 0
  {
    EveryLineOnce(steps);
    var s := Exec(steps);
    assert s.solo == 0 ==> s.repeated + s.handled == s.handled;
  }
}
