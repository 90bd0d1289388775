/**
 `DbLogReader._read_and_publish_events`: events are collected from a batch of log lines,
 BACKTRACE events are folded into the error they belong to, and what is left is delivered.
 */
module DbLogReader {
  import opened Text

  const ATTRIBUTION_LINES := 20

  /** An event of a batch with the backtrace lines collected for it. */
  datatype Entry = Entry(line: int, isBacktrace: bool, frames: seq<string>, raw: string)

  function Trace(frames: seq<string>): (s: string) {
    Join(frames, "\n")
  }

  ghost predicate Ascending(es: seq<Entry>) {
    forall i, j :: 0 <= i < j < |es| ==> es[i].line < es[j].line
  }

  /** A collected entry; its event object is known by its line number, and `raw_backtrace` is kept beside. */
  datatype Item = Item(line: int, isBacktrace: bool, frames: seq<string>)

  ghost predicate Increasing(items: seq<Item>) {
    forall i, j :: 0 <= i < j < |items| ==> items[i].line < items[j].line
  }

  // ---- Collecting the events of a batch

  /**
   What the regular expressions say about one line: `skipped` for a JSON line, one cut short or
   one whose processing raised; `matches` and `frames` for BACKTRACE_RE and its groups; `oneLine`
   for a backtrace printed on one line; `event` for the first system event pattern that matches.
   */
  datatype Line = Line(skipped: bool, matches: bool, frames: seq<string>, oneLine: seq<string>, event: Option<bool>)

  function WithFrames(items: seq<Item>, frames: seq<string>): (r: seq<Item>)
    requires items != []
    ensures |r| == |items| && forall i :: 0 <= i < |items| ==> r[i].line == items[i].line
  {
    items[..|items| - 1] + [items[|items| - 1].(frames := frames)]
  }

  function CollectLine(items: seq<Item>, l: Line, index: int): (r: seq<Item>)
    ensures |items| <= |r| <= |items| + 1
    ensures forall i :: 0 <= i < |items| ==> r[i].line == items[i].line
    ensures |r| > |items| ==> r[|items|].line == index
  {
    if l.skipped then items
    else
      var continues := l.matches && items != [];
      var items1 := if continues then WithFrames(items, items[|items| - 1].frames + l.frames) else items;
      var items2 := if l.event.Some? then items1 + [Item(index, l.event.value, [])] else items1;
      if !continues && l.oneLine != [] && items2 != [] then WithFrames(items2, l.oneLine) else items2
  }

  /** The events of a batch whose first line has number `start`; at most one per line, numbered by it. */
  function CollectEvents(lines: seq<Line>, start: int): (items: seq<Item>)
    ensures Increasing(items)
    ensures forall i :: 0 <= i < |items| ==> start <= items[i].line < start + |lines|
  {
    hide CollectLine;
    if lines == [] then []
    else
      var n := |lines| - 1;
      CollectLine(CollectEvents(lines[..n], start), lines[n], start + n)
  }

  /** What a line without an event makes of the backtrace collected so far. */
  function GatherLine(frames: seq<string>, l: Line): (r: seq<string>) {
    if l.skipped then frames
    else if l.matches then frames + l.frames
    else if l.oneLine != [] then l.oneLine
    else frames
  }

  function Gather(frames: seq<string>, lines: seq<Line>): (r: seq<string>) {
    if lines == [] then frames else GatherLine(Gather(frames, lines[..|lines| - 1]), lines[|lines| - 1])
  }

  /** The line brings an event. */
  predicate IsEvent(l: Line) {
    !l.skipped && l.event.Some?
  }

  lemma LineWithoutEvent(items: seq<Item>, l: Line, index: int)
    requires !IsEvent(l)
    ensures items == [] ==> CollectLine(items, l, index) == []
    ensures items != [] ==> CollectLine(items, l, index) == WithFrames(items, GatherLine(items[|items| - 1].frames, l))
  {
    assert items != [] ==> WithFrames(items, items[|items| - 1].frames) == items;
  }

  lemma FramesOverwritten(items: seq<Item>, f: seq<string>, g: seq<string>)
    requires items != []
    ensures WithFrames(WithFrames(items, f), g) == WithFrames(items, g)
    ensures WithFrames(items, f)[|items| - 1].frames == f
    ensures WithFrames(items, items[|items| - 1].frames) == items
  {
  }

  /** Up to the next event, lines add to the backtrace of the last event and to nothing else. */
  lemma {:induction false} TraceOfLastEvent(a: seq<Line>, b: seq<Line>, start: int)
    requires forall l :: l in b ==> !IsEvent(l)
    ensures var items := CollectEvents(a, start);
      CollectEvents(a + b, start) ==
        if items == [] then [] else WithFrames(items, Gather(items[|items| - 1].frames, b))
    decreases |b|
  {
    hide CollectLine, WithFrames, GatherLine, IsEvent;
    var items := CollectEvents(a, start);
    if b == [] {
      assert a + b == a;
      if items != [] { FramesOverwritten(items, [], []); }
    } else {
      var n := |b| - 1;
      assert (a + b)[..|a + b| - 1] == a + b[..n] && (a + b)[|a + b| - 1] == b[n] && b[n] in b;
      TraceOfLastEvent(a, b[..n], start);
      LineWithoutEvent(CollectEvents(a + b[..n], start), b[n], start + |a| + n);
      if items != [] {
        var f := Gather(items[|items| - 1].frames, b[..n]);
        FramesOverwritten(items, f, GatherLine(f, b[n]));
      }
    }
  }

  /** What a line that brings an event leaves: frames it matches go to the event before, if there is one. */
  lemma LineWithEvent(items: seq<Item>, l: Line, index: int)
    requires IsEvent(l)
    ensures var r := CollectLine(items, l, index);
      && |r| == |items| + 1
      && r[|items|] == Item(index, l.event.value, if l.matches && items != [] then [] else l.oneLine)
      && (items != [] ==> r[|items| - 1] == items[|items| - 1].(frames := Handed(items[|items| - 1].frames, l)))
      && (forall i :: 0 <= i < |items| - 1 ==> r[i] == items[i])
  {
  }

  /** The frames of the last event after the line of the next one. */
  function Handed(frames: seq<string>, l: Line): (r: seq<string>) {
    if l.matches then frames + l.frames else frames
  }

  /** Events before the last are never touched again. */
  lemma LineKeepsOlder(items: seq<Item>, l: Line, index: int)
    ensures var r := CollectLine(items, l, index);
      |r| >= |items| && forall i :: 0 <= i < |items| - 1 ==> r[i] == items[i]
    ensures |CollectLine(items, l, index)| == |items| + if IsEvent(l) then 1 else 0
  {
  }

  lemma {:induction false} OlderStay(a: seq<Line>, b: seq<Line>, start: int)
    ensures var items, all := CollectEvents(a, start), CollectEvents(a + b, start);
      |all| >= |items| && forall i :: 0 <= i < |items| - 1 ==> all[i] == items[i]
    decreases |b|
  {
    hide CollectLine;
    if b == [] {
      assert a + b == a;
    } else {
      var n := |b| - 1;
      assert (a + b)[..|a + b| - 1] == a + b[..n];
      OlderStay(a, b[..n], start);
      LineKeepsOlder(CollectEvents(a + b[..n], start), b[n], start + |a| + n);
    }
  }

  function EventCount(lines: seq<Line>): (n: nat) {
    if lines == [] then 0 else EventCount(lines[..|lines| - 1]) + if IsEvent(lines[|lines| - 1]) then 1 else 0
  }

  lemma {:induction false} OneItemPerEvent(lines: seq<Line>, start: int)
    ensures |CollectEvents(lines, start)| == EventCount(lines)
  {
    hide CollectLine, IsEvent;
    if lines != [] {
      var n := |lines| - 1;
      OneItemPerEvent(lines[..n], start);
      LineKeepsOlder(CollectEvents(lines[..n], start), lines[n], start + n);
    }
  }

  lemma CollectStep(lines: seq<Line>, start: int)
    requires lines != []
    ensures var n := |lines| - 1;
      CollectEvents(lines, start) == CollectLine(CollectEvents(lines[..n], start), lines[n], start + n)
  {
    hide CollectLine;
  }

  ghost predicate HasLine(items: seq<Item>, line: int) {
    exists i :: 0 <= i < |items| && items[i].line == line
  }

  lemma {:induction false} GrowsTo(lines: seq<Line>, k: nat, start: int)
    requires k <= |lines|
    ensures var part, all := CollectEvents(lines[..k], start), CollectEvents(lines, start);
      |part| <= |all| && (forall i :: 0 <= i < |part| ==> all[i].line == part[i].line)
      && forall i :: |part| <= i < |all| ==> all[i].line >= start + k
    decreases |lines|
  {
    hide CollectLine, CollectEvents;
    if k == |lines| {
      assert lines[..k] == lines;
    } else {
      var n := |lines| - 1;
      assert lines[..n][..k] == lines[..k];
      GrowsTo(lines[..n], k, start);
      CollectStep(lines, start);
    }
  }

  /** Exactly the lines that bring an event are collected. */
  lemma CollectedIff(lines: seq<Line>, start: int, k: nat)
    requires k < |lines|
    ensures HasLine(CollectEvents(lines, start), start + k) <==> IsEvent(lines[k])
  {
    hide CollectLine, CollectEvents, IsEvent;
    var before, upTo := CollectEvents(lines[..k], start), CollectEvents(lines[..k + 1], start);
    var all := CollectEvents(lines, start);
    assert lines[..k + 1][..k] == lines[..k];
    CollectStep(lines[..k + 1], start);
    LineKeepsOlder(before, lines[k], start + k);
    GrowsTo(lines, k + 1, start);
    if IsEvent(lines[k]) {
      assert all[|before|].line == upTo[|before|].line == start + k;
    } else {
      forall i | 0 <= i < |all| ensures all[i].line != start + k {
        assert i < |upTo| ==> all[i].line == before[i].line < start + k;
      }
    }
  }

  /** The frames an event starts with: a backtrace on its own line, unless its line continues an earlier event's. */
  function OwnFrames(lines: seq<Line>, k: nat): (r: seq<string>)
    requires k < |lines|
  {
    if lines[k].matches && EventCount(lines[..k]) > 0 then [] else lines[k].oneLine
  }

  /**
   The whole item of the event on line `k`, when `m` is the next line with one (or the end of the batch): its kind is
   the pattern's, and its frames are its own, then what the lines in between gather, and then
   those that line `m` itself matches.
   */
  lemma CollectedItem(lines: seq<Line>, start: int, k: nat, m: nat)
    requires k < m <= |lines| && IsEvent(lines[k])
    requires forall i :: k < i < m ==> !IsEvent(lines[i])
    requires m < |lines| ==> IsEvent(lines[m])
    ensures var j := EventCount(lines[..k]);
      var frames := Gather(OwnFrames(lines, k), lines[k + 1..m]);
      && j < |CollectEvents(lines, start)|
      && CollectEvents(lines, start)[j]
         == Item(start + k, lines[k].event.value, if m < |lines| then Handed(frames, lines[m]) else frames)
  {
    hide CollectLine, CollectEvents, IsEvent, Gather, Handed, OwnFrames;
    var items := CollectEvents(lines[..m], start);
    ItemAfterGap(lines, start, k, m);
    if m == |lines| {
      assert lines[..m] == lines;
    } else {
      NextEventHands(lines, start, m);
    }
  }

  /** The line of the next event adds to the last item, which then stays as it is. */
  lemma NextEventHands(lines: seq<Line>, start: int, m: nat)
    requires m < |lines| && IsEvent(lines[m])
    ensures var items, all := CollectEvents(lines[..m], start), CollectEvents(lines, start);
      items != [] ==>
        && |all| >= |items|
        && all[|items| - 1] == items[|items| - 1].(frames := Handed(items[|items| - 1].frames, lines[m]))
  {
    hide CollectLine, CollectEvents, IsEvent, Handed;
    assert lines[..m + 1][..m] == lines[..m] && lines[..m + 1] + lines[m + 1..] == lines;
    CollectStep(lines[..m + 1], start);
    LineWithEvent(CollectEvents(lines[..m], start), lines[m], start + m);
    OlderStay(lines[..m + 1], lines[m + 1..], start);
  }

  /** The event of line `k`, when that line has just been read, is the last item. */
  lemma ItemAtEvent(lines: seq<Line>, start: int, k: nat)
    requires k < |lines| && IsEvent(lines[k])
    ensures var items := CollectEvents(lines[..k + 1], start);
      && |items| == EventCount(lines[..k]) + 1
      && items[|items| - 1] == Item(start + k, lines[k].event.value, OwnFrames(lines, k))
  {
    hide CollectLine, CollectEvents;
    assert lines[..k + 1][..k] == lines[..k];
    CollectStep(lines[..k + 1], start);
    OneItemPerEvent(lines[..k], start);
    LineWithEvent(CollectEvents(lines[..k], start), lines[k], start + k);
  }

  lemma ItemAfterGap(lines: seq<Line>, start: int, k: nat, m: nat)
    requires k < m <= |lines| && IsEvent(lines[k]) && forall i :: k < i < m ==> !IsEvent(lines[i])
    ensures var items := CollectEvents(lines[..m], start);
      && |items| == EventCount(lines[..k]) + 1
      && items[|items| - 1]
         == Item(start + k, lines[k].event.value, Gather(OwnFrames(lines, k), lines[k + 1..m]))
  {
    hide CollectLine, CollectEvents, IsEvent, Gather, OwnFrames, EventCount;
    var head, gap := lines[..k + 1], lines[k + 1..m];
    assert head + gap == lines[..m];
    ItemAtEvent(lines, start, k);
    forall l | l in gap ensures !IsEvent(l) {
      var i :| 0 <= i < |gap| && gap[i] == l;
      assert lines[k + 1 + i] == l;
    }
    TraceOfLastEvent(head, gap, start);
  }

  /** Every event starts with the backtrace collected for itself. */
  function WithRaw(items: seq<Item>): (es: seq<Entry>)
    ensures |es| == |items|
    ensures forall i :: 0 <= i < |items| ==>
      es[i] == Entry(items[i].line, items[i].isBacktrace, items[i].frames, Trace(items[i].frames))
  {
    seq(|items|, i requires 0 <= i < |items| =>
      Entry(items[i].line, items[i].isBacktrace, items[i].frames, Trace(items[i].frames)))
  }

  lemma FirstNewline(f: string, rest: string)
    requires '\n' !in f
    ensures Find(f, "\n", 0) == -1 && Find(f + "\n" + rest, "\n", 0) == |f|
  {
    var s := f + "\n" + rest;
    assert OccursAt(s, "\n", |f|);
    forall i | 0 <= i < |f| ensures !OccursAt(f, "\n", i) && !OccursAt(s, "\n", i) {
      assert f[i..i + 1][0] == f[i] == s[i..i + 1][0];
    }
  }

  /** A printed trace can be taken apart into its frames again. */
  lemma {:induction false} TraceRoundTrip(frames: seq<string>)
    requires frames != [] && forall f :: f in frames ==> '\n' !in f
    ensures Split(Trace(frames), "\n") == frames
  {
    hide Find;
    var f, rest := frames[0], frames[1..];
    assert f in frames;
    FirstNewline(f, Trace(rest));
    if |frames| > 1 {
      assert forall g :: g in rest ==> g in frames;
      TraceRoundTrip(rest);
      var s := f + "\n" + Trace(rest);
      assert Trace(frames) == s && s[..|f|] == f && s[|f| + 1..] == Trace(rest);
    } else {
      assert frames == [f];
    }
  }

  // ---- Folding backtraces into errors, on values

  predicate BelongsTo(bt: Entry, host: Entry) {
    bt.isBacktrace && !host.isBacktrace && bt.line <= host.line + ATTRIBUTION_LINES
  }

  /** One run of `filter(self.filter_backtraces, ...)`: it looks only at the entry just before. */
  function Pass(es: seq<Entry>): (r: seq<Entry>)
    ensures |r| <= |es|
  {
    if |es| < 2 then es
    else if BelongsTo(es[1], es[0]) then [es[0].(raw := Trace(es[1].frames))] + Pass(es[2..])
    else [es[0]] + Pass(es[1..])
  }

  function Passes(es: seq<Entry>, n: nat): (r: seq<Entry>)
    decreases n
  {
    if n == 0 then es else Passes(Pass(es), n - 1)
  }

  function BacktraceCount(es: seq<Entry>): (n: nat) {
    if es == [] then 0 else (if es[0].isBacktrace then 1 else 0) + BacktraceCount(es[1..])
  }

  /** A single sweep in which an error takes in every backtrace that follows it closely enough. */
  function Sweep(es: seq<Entry>): (r: seq<Entry>)
    decreases |es|
  {
    if |es| < 2 then es
    else if BelongsTo(es[1], es[0]) then Sweep([es[0].(raw := Trace(es[1].frames))] + es[2..])
    else [es[0]] + Sweep(es[1..])
  }

  lemma {:induction false} SweepAbsorbsPass(host: Entry, es: seq<Entry>)
    ensures Sweep([host] + Pass(es)) == Sweep([host] + es)
    ensures Sweep(Pass(es)) == Sweep(es)
    decreases |es|, 1
  {
    PassThenSweep(es);
    if |es| >= 1 {
      var p := Pass(es);
      assert p[0].line == es[0].line && p[0].isBacktrace == es[0].isBacktrace && p[0].frames == es[0].frames;
      assert ([host] + es)[1..] == es && ([host] + p)[1..] == p;
      if BelongsTo(es[0], host) {
        var host' := host.(raw := Trace(es[0].frames));
        PassKeepsBacktraceHead(es);
        SweepAbsorbsPass(host', es[1..]);
        assert ([host] + es)[2..] == es[1..] && ([host] + p)[2..] == Pass(es[1..]);
      }
    }
  }

  lemma PassKeepsBacktraceHead(es: seq<Entry>)
    requires |es| >= 1 && es[0].isBacktrace
    ensures Pass(es) == [es[0]] + Pass(es[1..])
  {
  }

  /** The sweep does not see whether a pass has been made before it. */
  lemma {:induction false} PassThenSweep(es: seq<Entry>)
    ensures Sweep(Pass(es)) == Sweep(es)
    decreases |es|, 0
  {
    if |es| >= 2 {
      if BelongsTo(es[1], es[0]) {
        SweepAbsorbsPass(es[0].(raw := Trace(es[1].frames)), es[2..]);
      } else {
        SweepAbsorbsPass(es[0], es[1..]);
        assert es == [es[0]] + es[1..];
      }
    }
  }

  /** No entry belongs to the one just before it. */
  ghost predicate Settled(es: seq<Entry>) {
    |es| < 2 || (!BelongsTo(es[1], es[0]) && Settled(es[1..]))
  }

  /** A pass drops nothing but backtraces, and drops at least one unless nothing is left to drop. */
  lemma {:induction false} PassProgress(es: seq<Entry>)
    ensures Settled(es) ==> Pass(es) == es
    ensures BacktraceCount(Pass(es)) <= BacktraceCount(es) - if Settled(es) then 0 else 1
  {
    if |es| >= 2 {
      if BelongsTo(es[1], es[0]) {
        PassProgress(es[2..]);
        assert es[1..][1..] == es[2..];
        assert BacktraceCount(es) == 1 + BacktraceCount(es[2..]);
      } else {
        PassProgress(es[1..]);
      }
    }
  }

  lemma {:induction false} SettledSweep(es: seq<Entry>)
    requires Settled(es)
    ensures Sweep(es) == es
  {
    if |es| >= 2 {
      SettledSweep(es[1..]);
    }
  }

  lemma {:induction false} SettledPasses(es: seq<Entry>, n: nat)
    requires Settled(es)
    ensures Passes(es, n) == es
    decreases n
  {
    PassProgress(es);
    if n > 0 {
      SettledPasses(es, n - 1);
    }
  }

  lemma {:induction false} NoBacktracesSettled(es: seq<Entry>)
    requires BacktraceCount(es) == 0
    ensures Settled(es)
  {
    if |es| >= 2 {
      assert !es[1..][0].isBacktrace;
      NoBacktracesSettled(es[1..]);
    }
  }

  /** As many passes as there are backtraces amount to one sweep. */
  lemma {:induction false} PassesAreOneSweep(es: seq<Entry>, n: nat)
    requires BacktraceCount(es) <= n
    ensures Passes(es, n) == Sweep(es)
    decreases n
  {
    PassProgress(es);
    if n == 0 {
      NoBacktracesSettled(es);
    }
    if Settled(es) {
      SettledPasses(es, n);
      SettledSweep(es);
    } else {
      PassesAreOneSweep(Pass(es), n - 1);
      PassThenSweep(es);
    }
  }

  // ---- What a batch reports, said entry by entry

  /** The nearest entry before `i` that is not a backtrace, or -1. */
  function Host(es: seq<Entry>, i: nat): (h: int)
    requires i <= |es|
    ensures -1 <= h < i
    ensures h >= 0 ==> !es[h].isBacktrace
    ensures forall k :: h < k < i ==> es[k].isBacktrace
  {
    if i == 0 then -1 else if !es[i - 1].isBacktrace then i - 1 else Host(es, i - 1)
  }

  /** A backtrace is dropped when its host is at most 20 lines above it. */
  predicate Dropped(es: seq<Entry>, i: nat)
    requires i < |es|
  {
    Host(es, i) >= 0 && BelongsTo(es[i], es[Host(es, i)])
  }

  /** In full: an event that is no backtrace, with only backtraces between, is at most 20 lines above. */
  lemma DroppedIff(es: seq<Entry>, i: nat)
    requires i < |es|
    ensures Dropped(es, i) <==> es[i].isBacktrace && exists h :: NearestAbove(es, h, i) && es[i].line - es[h].line <= 20
  {
    if Host(es, i) >= 0 {
      assert NearestAbove(es, Host(es, i), i);
    }
  }

  ghost predicate NearestAbove(es: seq<Entry>, h: int, i: nat)
    requires i < |es|
  {
    0 <= h < i && !es[h].isBacktrace && forall k :: h < k < i ==> es[k].isBacktrace
  }

  /** The raw backtrace of entry `i` once the entries before `j` are looked at: that of the last one dropped onto it. */
  function RawUpTo(es: seq<Entry>, i: nat, j: nat): (raw: string)
    requires i < |es| && j <= |es|
  {
    if j <= i + 1 then es[i].raw
    else if Dropped(es, j - 1) && Host(es, j - 1) == i then Trace(es[j - 1].frames)
    else RawUpTo(es, i, j - 1)
  }

  function Reported(es: seq<Entry>, i: nat): (e: Entry)
    requires i < |es|
  {
    es[i].(raw := RawUpTo(es, i, |es|))
  }

  /** All entries that are not dropped, in order, from index `i` on. */
  function Report(es: seq<Entry>, i: nat): (r: seq<Entry>)
    requires i <= |es|
    decreases |es| - i
  {
    if i == |es| then [] else (if Dropped(es, i) then [] else [Reported(es, i)]) + Report(es, i + 1)
  }

  /** Host `i` has taken in everything before `j` and nothing from `j` on. */
  lemma {:induction false} NothingMoreDropped(es: seq<Entry>, i: nat, j: nat, k: nat)
    requires Ascending(es) && i < j <= k <= |es|
    requires j < |es| ==> !BelongsTo(es[j], es[i])
    ensures RawUpTo(es, i, k) == RawUpTo(es, i, j)
    decreases k
  {
    if j < k {
      NothingMoreDropped(es, i, j, k - 1);
      if Host(es, k - 1) == i {
        assert j < k - 1 ==> es[j].isBacktrace && es[j].line < es[k - 1].line;
      }
    }
  }

  lemma HostIs(es: seq<Entry>, i: nat, j: nat)
    requires i < j <= |es| && !es[i].isBacktrace
    requires forall k :: i < k < j ==> es[k].isBacktrace
    ensures Host(es, j) == i
  {
  }

  /** The first entry that does not join the current one is not dropped at all. */
  lemma NextStays(es: seq<Entry>, i: nat, j: nat)
    requires Ascending(es) && i < j < |es| && !Dropped(es, i)
    requires forall k :: i < k < j ==> Dropped(es, k) && Host(es, k) == i
    ensures if BelongsTo(es[j], es[i]) then Dropped(es, j) && Host(es, j) == i else !Dropped(es, j)
  {
    if !es[i].isBacktrace {
      HostIs(es, i, j);
    } else {
      assert Host(es, i + 1) != i;
      assert j == i + 1 && es[i].line < es[j].line;
    }
  }

  lemma {:induction false} SweepFrom(es: seq<Entry>, i: nat, j: nat)
    requires Ascending(es) && i < j <= |es| && !Dropped(es, i)
    requires forall k :: i < k < j ==> Dropped(es, k) && Host(es, k) == i
    ensures Sweep([es[i].(raw := RawUpTo(es, i, j))] + es[j..]) == [Reported(es, i)] + Report(es, j)
    decreases |es| - j
  {
    hide Trace, BelongsTo, Dropped, Host, Sweep, Report, RawUpTo;
    var a := es[i].(raw := RawUpTo(es, i, j));
    if j == |es| {
      SweepOne(a);
      assert [a] + es[j..] == [a];
      assert Report(es, j) == [] by { ReportStep(es, j); }
    } else {
      SweepStep(a, es, j);
      NextStays(es, i, j);
      SameVerdict(es[j], es[i], a);
      ReportStep(es, j);
      RawStep(es, i, j);
      if BelongsTo(es[j], a) {
        SweepFrom(es, i, j + 1);
      } else {
        NothingMoreDropped(es, i, j, |es|);
        RawStart(es, j);
        SweepFrom(es, j, j + 1);
      }
    }
  }

  lemma ReportStep(es: seq<Entry>, j: nat)
    requires j <= |es|
    ensures j == |es| ==> Report(es, j) == []
    ensures j < |es| ==>
      Report(es, j) == if Dropped(es, j) then Report(es, j + 1) else [Reported(es, j)] + Report(es, j + 1)
  {
    hide Dropped;
  }

  lemma RawStep(es: seq<Entry>, i: nat, j: nat)
    requires i < j < |es|
    ensures Dropped(es, j) && Host(es, j) == i ==> RawUpTo(es, i, j + 1) == Trace(es[j].frames)
  {
    hide Dropped, Host, Trace;
  }

  lemma RawStart(es: seq<Entry>, j: nat)
    requires j < |es|
    ensures es[j].(raw := RawUpTo(es, j, j + 1)) == es[j]
  {
  }

  lemma SweepOne(a: Entry)
    ensures Sweep([a]) == [a]
  {
  }

  lemma SweepStep(a: Entry, es: seq<Entry>, j: nat)
    requires j < |es|
    ensures Sweep([a] + es[j..]) == if BelongsTo(es[j], a)
      then Sweep([a.(raw := Trace(es[j].frames))] + es[j + 1..])
      else [a] + Sweep([es[j]] + es[j + 1..])
  {
    var cur := [a] + es[j..];
    assert cur[1..] == es[j..] == [es[j]] + es[j + 1..] && cur[2..] == es[j + 1..];
  }

  lemma SameVerdict(bt: Entry, host: Entry, host': Entry)
    requires host.line == host'.line && host.isBacktrace == host'.isBacktrace
    ensures BelongsTo(bt, host) <==> BelongsTo(bt, host')
  {
  }

  /**
   What a batch delivers: filtering it once per backtrace drops a backtrace exactly when the
   nearest error above it is within 20 lines, leaves that error with the trace of the last
   backtrace dropped onto it, and keeps everything else in order.
   */
  lemma RepeatedFilterReport(es: seq<Entry>, n: nat)
    requires Ascending(es) && BacktraceCount(es) <= n
    ensures Passes(es, n) == Report(es, 0)
  {
    PassesAreOneSweep(es, n);
    if es != [] {
      SweepFrom(es, 0, 1);
      assert es == [es[0]] + es[1..];
      assert es[0].(raw := RawUpTo(es, 0, 1)) == es[0];
    }
  }

  // ---- One run of the filter, entry by entry

  lemma PassStep(a: Entry, es: seq<Entry>, i: nat)
    requires i < |es|
    ensures Pass([a] + es[i..]) == if BelongsTo(es[i], a)
      then [a.(raw := Trace(es[i].frames))] + Pass(es[i + 1..])
      else [a] + Pass([es[i]] + es[i + 1..])
  {
    var cur := [a] + es[i..];
    assert cur[1..] == es[i..] == [es[i]] + es[i + 1..] && cur[2..] == es[i + 1..];
  }


  /** How far one run of the filter is after `i` entries; `open` says that the last of them was kept. */
  ghost predicate Progress(es: seq<Entry>, i: nat, out: seq<Entry>, open: bool)
    requires i <= |es|
  {
    && (open ==> out != [])
    && Pass(es) == if open then out[..|out| - 1] + Pass([out[|out| - 1]] + es[i..]) else out + Pass(es[i..])
  }

  /** `out` after one more entry. */
  function Advance(out: seq<Entry>, e: Entry, keep: bool): (r: seq<Entry>)
    requires keep || out != []
    ensures |r| == if keep then |out| + 1 else |out|
  {
    if keep then out + [e] else out[..|out| - 1] + [out[|out| - 1].(raw := Trace(e.frames))]
  }

  lemma ProgressStep(es: seq<Entry>, i: nat, out: seq<Entry>, open: bool, keep: bool)
    requires i < |es| && Progress(es, i, out, open)
    requires keep <==> !open || !BelongsTo(es[i], out[|out| - 1])
    ensures Progress(es, i + 1, Advance(out, es[i], keep), keep)
  {
    hide Trace, BelongsTo, Pass;
    assert es[i..] == [es[i]] + es[i + 1..];
    if open {
      PassStep(out[|out| - 1], es, i);
    }
  }

  lemma ProgressStart(es: seq<Entry>)
    ensures Progress(es, 0, [], false)
  {
    assert es[0..] == es;
  }

  lemma ProgressEnd(es: seq<Entry>, out: seq<Entry>, open: bool)
    requires Progress(es, |es|, out, open)
    ensures out == Pass(es)
  {
    hide Pass;
    assert es[|es|..] == [];
    if open {
      var last := out[|out| - 1];
      PassNothing(last);
      assert [last] + es[|es|..] == [last] && out[..|out| - 1] + [last] == out;
    } else {
      PassNothing(Entry(0, false, [], ""));
      assert out + [] == out;
    }
  }

  lemma PassNothing(e: Entry)
    ensures Pass([]) == [] && Pass([e]) == [e]
  {
  }

  // ---- The reader object: events are shared objects, and the filter writes through its last one

  type RawTraces = map<int, string>

  function View(item: Item, raws: RawTraces): (e: Entry) {
    Entry(item.line, item.isBacktrace, item.frames, if item.line in raws then raws[item.line] else "")
  }

  function Views(items: seq<Item>, raws: RawTraces): (es: seq<Entry>)
    ensures |es| == |items| && forall i :: 0 <= i < |items| ==> es[i] == View(items[i], raws)
  {
    seq(|items|, i requires 0 <= i < |items| => View(items[i], raws))
  }

  /** The filter's state after `i` items: the kept ones, seen through the traces written so far, are `out`. */
  ghost predicate Tracked(items: seq<Item>, i: nat, kept: seq<Item>, raws: RawTraces, es: seq<Entry>, out: seq<Entry>)
    requires i <= |items|
  {
    && |es| == |items| && Progress(es, i, out, LastKept(items, i, kept))
    && (forall j :: i <= j < |items| ==> View(items[j], raws) == es[j])
    && Increasing(kept) && (forall k :: 0 <= k < |kept| ==> i > 0 && kept[k].line <= items[i - 1].line)
    && Views(kept, raws) == out
    && (i > 0 && !LastKept(items, i, kept) ==> items[i - 1].isBacktrace)
  }

  ghost predicate LastKept(items: seq<Item>, i: nat, kept: seq<Item>)
    requires i <= |items|
  {
    i > 0 && kept != [] && kept[|kept| - 1] == items[i - 1]
  }

  lemma TrackStart(items: seq<Item>, raws: RawTraces)
    ensures Tracked(items, 0, [], raws, Views(items, raws), [])
  {
    ProgressStart(Views(items, raws));
  }

  lemma TrackKeep(items: seq<Item>, i: nat, kept: seq<Item>, raws: RawTraces, es: seq<Entry>, out: seq<Entry>)
    requires Increasing(items) && i < |items| && Tracked(items, i, kept, raws, es, out)
    requires i == 0 || !BelongsTo(View(items[i], raws), View(items[i - 1], raws))
    ensures Tracked(items, i + 1, kept + [items[i]], raws, es, out + [es[i]])
  {
    hide Progress;
    ProgressStep(es, i, out, LastKept(items, i, kept), true);
    assert Views(kept + [items[i]], raws) == out + [es[i]];
    assert i > 0 ==> items[i - 1].line < items[i].line;
  }

  lemma TrackDrop(items: seq<Item>, i: nat, kept: seq<Item>, raws: RawTraces, es: seq<Entry>, out: seq<Entry>)
    requires Increasing(items) && 0 < i < |items| && Tracked(items, i, kept, raws, es, out)
    requires BelongsTo(View(items[i], raws), View(items[i - 1], raws))
    ensures out != []
    ensures Tracked(items, i + 1, kept, raws[items[i - 1].line := Trace(items[i].frames)], es,
                    Advance(out, es[i], false))
  {
    hide Progress, Trace;
    assert LastKept(items, i, kept);
    ProgressStep(es, i, out, true, false);
    var raws' := raws[items[i - 1].line := Trace(items[i].frames)];
    assert items[i - 1].line < items[i].line;
    assert !LastKept(items, i + 1, kept);
    assert Views(kept, raws') == Advance(out, es[i], false);
  }

  lemma TrackEnd(items: seq<Item>, kept: seq<Item>, raws: RawTraces, es: seq<Entry>, out: seq<Entry>)
    requires Tracked(items, |items|, kept, raws, es, out)
    ensures Increasing(kept) && Views(kept, raws) == Pass(es)
  {
    ProgressEnd(es, out, LastKept(items, |items|, kept));
  }

  class Reader {
    var lastError: Option<Item>
    var raws: RawTraces

    constructor ()
      ensures lastError == None && raws == map[]
    {
      lastError, raws := None, map[];
    }

    /** `filter_backtraces`: whether to keep the entry; a dropped one hands its trace to the event before. */
    method FilterBacktraces(item: Item) returns (keep: bool)
      modifies this
      ensures lastError == Some(item)
      ensures keep <==> old(lastError.None? || !BelongsTo(View(item, raws), View(lastError.value, raws)))
      ensures !keep ==> item.isBacktrace
      ensures raws == if keep then old(raws) else old(raws[lastError.value.line := Trace(item.frames)])
    {
      keep := true;
      if lastError.Some? && item.line <= lastError.value.line + ATTRIBUTION_LINES
         && !lastError.value.isBacktrace && item.isBacktrace {
        raws := raws[lastError.value.line := Trace(item.frames)];
        keep := false;
      }
      lastError := Some(item);
    }

    /** One run of the filter over the list. */
    method FilterPass(items: seq<Item>) returns (kept: seq<Item>)
      requires Increasing(items)
      modifies this
      ensures Increasing(kept) && Views(kept, raws) == Pass(old(Views(items, raws)))
    {
      hide Tracked;
      ghost var es, out := Views(items, raws), [];
      lastError, kept := None, [];
      TrackStart(items, raws);
      var i := 0;
      while i < |items|
        invariant 0 <= i <= |items| && Tracked(items, i, kept, raws, es, out)
        invariant lastError == if i == 0 then None else Some(items[i - 1])
      {
        ghost var raws0 := raws;
        var keep := FilterBacktraces(items[i]);
        if keep {
          TrackKeep(items, i, kept, raws0, es, out);
          kept, out := kept + [items[i]], out + [es[i]];
        } else {
          TrackDrop(items, i, kept, raws0, es, out);
          out := Advance(out, es[i], false);
        }
        i := i + 1;
      }
      TrackEnd(items, kept, raws, es, out);
    }

    /** Fold the backtraces of a batch: one run of the filter per BACKTRACE event. */
    method FoldBacktraces(items: seq<Item>) returns (kept: seq<Item>)
      requires Increasing(items)
      modifies this
      ensures Views(kept, raws) == Report(WithRaw(items), 0)
    {
      hide Pass, Trace, Report;
      ghost var es := WithRaw(items);
      raws := map[];
      var count := 0;
      for i := 0 to |items|
        invariant forall j :: 0 <= j < i ==> View(items[j], raws) == es[j]
        invariant count == BacktraceCount(es[..i])
      {
        raws := raws[items[i].line := Trace(items[i].frames)];
        CountExtends(es, i);
        if items[i].isBacktrace {
          count := count + 1;
        }
      }
      assert es[..|items|] == es && Views(items, raws) == es;
      RepeatedFilterReport(es, count);
      kept := items;
      for n := 0 to count
        invariant Increasing(kept)
        invariant Passes(es, count) == Passes(Views(kept, raws), count - n)
      {
        kept := FilterPass(kept);
      }
    }

    /** A whole batch, from its lines to what is reported of them. */
    method ProcessBatch(lines: seq<Line>, start: int) returns (kept: seq<Item>)
      modifies this
      ensures Views(kept, raws) == Report(WithRaw(CollectEvents(lines, start)), 0)
    {
      hide CollectLine, Report;
      var items: seq<Item> := [];
      for i := 0 to |lines|
        invariant items == CollectEvents(lines[..i], start)
      {
        assert lines[..i + 1][..i] == lines[..i];
        items := CollectLine(items, lines[i], start + i);
      }
      assert lines[..|lines|] == lines;
      kept := FoldBacktraces(items);
    }
  }

  lemma CountExtends(es: seq<Entry>, i: nat)
    requires i < |es|
    ensures BacktraceCount(es[..i + 1]) == BacktraceCount(es[..i]) + if es[i].isBacktrace then 1 else 0
  {
    if i > 0 {
      CountExtends(es[1..], i - 1);
      assert es[..i + 1][1..] == es[1..][..i] && es[..i][1..] == es[1..][..i - 1];
    }
  }

  // ---- Delivery

  /** An event goes to the decoding queue when there is one and it has a backtrace. */
  predicate NeedsDecoding(e: Entry, decoding: bool) {
    decoding && e.raw != ""
  }

  /** The events, in order, that have a trace to be decoded, or those that have not. */
  function Picked(es: seq<Entry>, decoding: bool, wanted: bool): (r: seq<Entry>) {
    if es == [] then []
    else
      var n := |es| - 1;
      Picked(es[..n], decoding, wanted) + if (decoding && es[n].raw != "") == wanted then [es[n]] else []
  }

  lemma PickedStep(es: seq<Entry>, decoding: bool)
    requires es != []
    ensures var n := |es| - 1;
      && Picked(es, decoding, true)
         == Picked(es[..n], decoding, true) + (if NeedsDecoding(es[n], decoding) then [es[n]] else [])
      && Picked(es, decoding, false)
         == Picked(es[..n], decoding, false) + (if NeedsDecoding(es[n], decoding) then [] else [es[n]])
  {
  }

  /** Each event is in exactly one of the two. */
  lemma {:induction false} PickedAll(es: seq<Entry>, decoding: bool)
    ensures multiset(Picked(es, decoding, false)) + multiset(Picked(es, decoding, true)) == multiset(es)
  {
    hide Picked;
    if es == [] {
      NothingPicked(decoding);
    } else {
      var n := |es| - 1;
      PickedAll(es[..n], decoding);
      PickedStep(es, decoding);
      assert es == es[..n] + [es[n]];
    }
  }

  lemma NothingPicked(decoding: bool)
    ensures Picked([], decoding, true) == [] == Picked([], decoding, false)
  {
  }

  /** The debug information for entry `i` is needed and cannot be found. */
  predicate LookupFails(es: seq<Entry>, decoding: bool, lookup: nat -> bool, i: nat)
    requires i < |es|
  {
    NeedsDecoding(es[i], decoding) && !lookup(i)
  }

  /**
   Deliver the events of a batch. The first failing lookup publishes its event undecoded and
   raises, so every event after it is lost: all are delivered exactly when no lookup fails
   before the last event. Both lists keep the order of the batch.
   */
  method Deliver(es: seq<Entry>, decoding: bool, lookup: nat -> bool)
    returns (published: seq<Entry>, queued: seq<Entry>, raised: bool, ghost done: nat)
    ensures done <= |es| && multiset(published) + multiset(queued) == multiset(es[..done])
    ensures done == |es| <==> forall i :: 0 <= i < |es| - 1 ==> !LookupFails(es, decoding, lookup, i)
    ensures raised <==> exists i :: 0 <= i < |es| && LookupFails(es, decoding, lookup, i)
    ensures raised ==> 0 < done
    ensures queued == Picked(es[..if raised then done - 1 else done], decoding, true)
    ensures published
         == Picked(es[..if raised then done - 1 else done], decoding, false) + if raised then [es[done - 1]] else []
  {
    hide NeedsDecoding, Picked;
    NothingPicked(decoding);
    published, queued, raised, done := [], [], false, 0;
    for i := 0 to |es|
      invariant done == i && !raised
      invariant forall j :: 0 <= j < i ==> !LookupFails(es, decoding, lookup, j)
      invariant queued == Picked(es[..i], decoding, true) && published == Picked(es[..i], decoding, false)
    {
      done := i + 1;
      assert es[..i + 1] == es[..i] + [es[i]] && es[..i + 1][..i] == es[..i];
      PickedStep(es[..i + 1], decoding);
      if !NeedsDecoding(es[i], decoding) {
        published := published + [es[i]];
      } else if lookup(i) {
        queued := queued + [es[i]];
      } else {
        assert LookupFails(es, decoding, lookup, i);
        PickedAll(es[..i], decoding);
        published, raised := published + [es[i]], true;
        return;
      }
    }
    PickedAll(es, decoding);
    assert es[..|es|] == es;
  }
}
