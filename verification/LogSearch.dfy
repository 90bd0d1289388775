/**
 `BaseNode.open_system_log`: a binary search over BYTE OFFSETS of a log file. Each probe
 seeks to the middle offset, drops the line fragment found there and looks at the time
 stamp of the first parsable line after it.
 */
module LogSearch {
  import opened Text

  /** `parse` stands for `datetime.fromisoformat(line.split(' ')[0])`; `None` is its ValueError. */
  type StampParser = string -> Option<int>

  const MICROSECONDS := 1_000_000

  /** What the context manager does: yield the file at an offset, or finish without yielding. */
  datatype Opened = At(pos: nat) | NotYielded

  predicate Stamped(text: string, parse: StampParser, q: int) {
    IsLineStart(text, q) && parse(LineAt(text, q)).Some?
  }

  function StampAt(text: string, parse: StampParser, q: int): (t: int)
    requires Stamped(text, parse, q)
  {
    parse(LineAt(text, q)).value
  }

  predicate Qualifies(text: string, parse: StampParser, t: int, q: int) {
    Stamped(text, parse, q) && StampAt(text, parse, q) >= t
  }

  predicate Early(text: string, parse: StampParser, t: int, q: int) {
    Stamped(text, parse, q) && StampAt(text, parse, q) < t
  }

  /** Stamped lines appear in non-decreasing order; lines without a stamp may stand anywhere. */
  ghost predicate Chronological(text: string, parse: StampParser) {
    forall p, q :: Stamped(text, parse, p) && Stamped(text, parse, q) && p < q ==>
      StampAt(text, parse, p) <= StampAt(text, parse, q)
  }

  /** From the line start `q` on, no line has a stamp. */
  ghost predicate UnstampedTail(text: string, parse: StampParser, q: int) {
    IsLineStart(text, q) && forall p :: q <= p ==> !Stamped(text, parse, p)
  }

  ghost function Skipped(text: string, parse: StampParser, t: int, pos: nat): (s: set<int>) {
    set q | 0 <= q < pos && Qualifies(text, parse, t, q)
  }

  /** A probe at offset `m` ends on the stamped line `at`. */
  ghost predicate Hits(text: string, parse: StampParser, m: int, at: int) {
    0 <= m <= |text| && LineEnd(text, m) <= at && Stamped(text, parse, at)
    && forall q :: LineEnd(text, m) <= q < at ==> !Stamped(text, parse, q)
  }

  /** No line starts strictly inside the fragment that a probe drops. */
  lemma FragmentHidesNoLine(text: string, m: nat, q: int)
    requires m <= |text| && IsLineStart(text, q)
    ensures q <= m || LineEnd(text, m) <= q
  {
    if m < q && q < LineEnd(text, m) {
      LineHasNoInnerNewline(text, m, q - 1);
    }
  }

  /** The second of the requested time: `on_datetime.replace(microsecond=0)`. */
  function WholeSecond(on: int): (t: int)
    ensures t <= on < t + 1_000_000 && t % 1_000_000 == 0
  {
    on - on % MICROSECONDS
  }

  datatype Probed = EndOfLog | NoStamp | Before(at: nat) | AtOrAfter(at: nat)

  /** The first stamped line at `at` or after it, a line at a time. */
  function NextStamped(text: string, parse: StampParser, at: nat): (r: Option<nat>)
    requires at <= |text|
    ensures r.Some? ==> at <= r.value < |text|
    decreases |text| - at
  {
    if at == |text| then None
    else if parse(LineAt(text, at)).Some? then Some(at)
    else NextStamped(text, parse, LineEnd(text, at))
  }

  /** What a probe at `mid` finds, and where it leaves the file. */
  function ProbeAt(text: string, parse: StampParser, t: int, mid: nat): (r: (Probed, nat))
    requires mid <= |text|
    ensures r.1 <= |text|
  {
    var at := LineEnd(text, mid);
    if at == |text| then (EndOfLog, at)
    else
      match NextStamped(text, parse, at)
      case None => (NoStamp, |text|)
      case Some(q) =>
        var stamp := parse(LineAt(text, q));
        (if stamp.Some? && stamp.value < t then Before(q) else AtOrAfter(q), LineEnd(text, q))
  }

  /** The rest of the bisection, between the offsets `left` and `right`, with the file at `pos`. */
  function Search(text: string, parse: StampParser, t: int, left: nat, right: int, pos: nat): (r: Opened)
    requires left <= right + 1 && right <= |text| && pos <= |text|
    ensures r.At? ==> r.pos <= |text|
    decreases right - left + 1
  {
    if left > right then At(pos)
    else
      var mid := (left + right) / 2;
      var (p, pos') := ProbeAt(text, parse, t, mid);
      match p
      case NoStamp => NotYielded
      case Before(_) => Search(text, parse, t, mid + 1, right, pos')
      case EndOfLog => Search(text, parse, t, left, mid - 1, pos')
      case AtOrAfter(_) => Search(text, parse, t, left, mid - 1, pos')
  }

  /**
   One probe: seek to `mid`, drop the fragment, read on to the first line whose stamp parses,
   and compare it with `t`. `pos` is where the file then stands.
   */
  method Probe(text: string, parse: StampParser, t: int, mid: nat) returns (p: Probed, pos: nat)
    requires mid <= |text|
    ensures (p, pos) == ProbeAt(text, parse, t, mid)
    ensures p.EndOfLog? ==> LineEnd(text, mid) == |text| == pos
    ensures p.Before? ==> p.at <= |text| && Below(text, parse, t, mid + 1, p.at) && pos == LineEnd(text, p.at)
    ensures p.AtOrAfter? ==> Above(text, parse, t, mid, p.at) && pos == AfterProbe(text, mid, p.at)
    ensures p.NoStamp? ==> HasUnstampedTail(text, parse)
  {
    hide NextStamped;
    var at := LineEnd(text, mid);
    pos := LineEnd(text, at);
    if pos == at {
      return EndOfLog, pos;
    }
    while parse(text[at..pos]).None?
      invariant IsLineStart(text, at) && mid < at
      invariant LineEnd(text, mid) <= at < pos == LineEnd(text, at)
      invariant NextStamped(text, parse, LineEnd(text, mid)) == NextStamped(text, parse, at)
      invariant NoStampIn(text, parse, LineEnd(text, mid), at)
      decreases |text| - at
    {
      NextStampedStep(text, parse, at);
      NoStampInLine(text, parse, LineEnd(text, mid), at);
      if pos == |text| {
        NextStampedEnd(text, parse);
        NoStampToTheEnd(text, parse, LineEnd(text, mid), at);
        return NoStamp, pos;
      }
      at, pos := pos, LineEnd(text, pos);
    }
    NextStampedStep(text, parse, at);
    p := if parse(text[at..pos]).value < t then Before(at) else AtOrAfter(at);
  }

  ghost predicate NoStampIn(text: string, parse: StampParser, low: int, high: int) {
    forall q :: low <= q < high ==> !Stamped(text, parse, q)
  }

  lemma NextStampedStep(text: string, parse: StampParser, at: nat)
    requires at < |text|
    ensures NextStamped(text, parse, at)
         == if parse(LineAt(text, at)).Some? then Some(at) else NextStamped(text, parse, LineEnd(text, at))
  {
  }

  lemma NextStampedEnd(text: string, parse: StampParser)
    ensures NextStamped(text, parse, |text|) == None
  {
  }

  lemma NoStampInLine(text: string, parse: StampParser, low: nat, at: nat)
    requires at < |text| && NoStampIn(text, parse, low, at) && parse(LineAt(text, at)).None?
    ensures NoStampIn(text, parse, low, LineEnd(text, at))
  {
    forall q | at <= q < LineEnd(text, at) ensures !Stamped(text, parse, q) {
      if IsLineStart(text, q) { FragmentHidesNoLine(text, at, q); }
    }
  }

  lemma NoStampToTheEnd(text: string, parse: StampParser, low: nat, at: nat)
    requires 0 < low <= at && IsLineStart(text, at) && NoStampIn(text, parse, low, |text|)
    ensures HasUnstampedTail(text, parse)
  {
    assert UnstampedTail(text, parse, at);
  }

  /** What a yielded position promises for the time `t`. */
  ghost predicate Positioned(text: string, parse: StampParser, t: int, pos: nat) {
    // everything from there on is at or after the requested second
    && (forall q :: pos <= q && Stamped(text, parse, q) ==> StampAt(text, parse, q) >= t)
    // a qualifying first line is always lost: every probe drops the line fragment at its offset
    && (Qualifies(text, parse, t, 0) ==> 0 in Skipped(text, parse, t, pos))
    // apart from it no qualifying line is lost, or exactly the first one
    && (Skipped(text, parse, t, pos) - {0} == {}
        || exists h :: FirstLate(text, parse, t, h) && Skipped(text, parse, t, pos) - {0} == {h})
  }

  /** The first qualifying line after the line at 0. */
  ghost predicate FirstLate(text: string, parse: StampParser, t: int, h: int) {
    h > 0 && Qualifies(text, parse, t, h) && forall q :: 0 < q < h ==> !Qualifies(text, parse, t, q)
  }

  ghost predicate HasUnstampedTail(text: string, parse: StampParser) {
    exists q :: q > 0 && UnstampedTail(text, parse, q)
  }

  ghost predicate NothingQualifies(text: string, parse: StampParser, t: int) {
    forall q :: !Qualifies(text, parse, t, q)
  }

  /** The probe just below `left` ended on the early line `g`. */
  ghost predicate Below(text: string, parse: StampParser, t: int, left: int, g: int) {
    left > 0 ==> Hits(text, parse, left - 1, g) && Early(text, parse, t, g)
  }

  /** The probe at `m` ran into the end of the log or ended on the qualifying line `h`. */
  ghost predicate Above(text: string, parse: StampParser, t: int, m: int, h: int) {
    0 <= m <= |text| ==>
      LineEnd(text, m) == |text| || (Hits(text, parse, m, h) && Qualifies(text, parse, t, h))
  }

  // ---- The course of the search, on numbers alone

  /** The greatest number from 1 to `k` for which `p` holds, or 0. */
  function LastWhere(p: int -> bool, k: nat): (r: nat)
    ensures r <= k && (r > 0 ==> p(r))
    ensures forall q :: r < q <= k ==> !p(q)
  {
    if k == 0 || p(k) then k else LastWhere(p, k - 1)
  }

  /** Where the last early line stands; this and the next two are 0 if there is none after the log's first line. */
  function LastEarly(text: string, parse: StampParser, t: int): (c: nat)
    ensures c <= |text| && (c > 0 ==> Early(text, parse, t, c)) && forall q :: c < q ==> !Early(text, parse, t, q)
  {
    var p := q => Early(text, parse, t, q);
    var c := LastWhere(p, |text|);
    assert forall q :: c < q <= |text| ==> !p(q);
    assert forall q :: c < q && Early(text, parse, t, q) ==> p(q) && q <= |text|;
    c
  }

  /** Where the last stamped line stands. */
  function LastStamped(text: string, parse: StampParser): (s: nat)
    ensures s <= |text| && (s > 0 ==> Stamped(text, parse, s)) && forall q :: s < q ==> !Stamped(text, parse, q)
  {
    var p := q => Stamped(text, parse, q);
    var s := LastWhere(p, |text|);
    assert forall q :: s < q <= |text| ==> !p(q);
    assert forall q :: s < q && Stamped(text, parse, q) ==> p(q) && q <= |text|;
    s
  }

  /** Where the last line stands. */
  function LastLine(text: string): (z: nat)
    ensures z <= |text| && (z > 0 ==> IsLineStart(text, z)) && forall q :: z < q ==> !IsLineStart(text, q)
  {
    var p := q => IsLineStart(text, q);
    var z := LastWhere(p, |text|);
    assert forall q :: z < q <= |text| ==> !p(q);
    assert forall q :: z < q && IsLineStart(text, q) ==> p(q) && q <= |text|;
    z
  }

  /**
   The last offset that a bisection between `left` and `right` probes after `last`, or -1 if it meets an offset from
   `s` to `z`: below `c` it goes on to the right, elsewhere to the left.
   */
  function Course(left: nat, right: int, c: nat, s: nat, z: nat, last: int): (r: int)
    requires left <= right + 1
    decreases right - left + 1
  {
    if left > right then last
    else
      var mid := (left + right) / 2;
      if s <= mid < z then -1
      else if mid < c then Course(mid + 1, right, c, s, z, mid)
      else Course(left, mid - 1, c, s, z, mid)
  }

  /** The whole search's course: it depends on the size of the log and three offsets only. */
  function SearchCourse(text: string, parse: StampParser, t: int): (r: int) {
    Course(0, |text|, LastEarly(text, parse, t), LastStamped(text, parse), LastLine(text), 0)
  }

  /** The last probe is below the last early line, or not before the last line. */
  predicate Spared(text: string, parse: StampParser, t: int) {
    SearchCourse(text, parse, t) < LastEarly(text, parse, t) || LastLine(text) <= SearchCourse(text, parse, t)
  }

  method OpenSystemLog(text: string, parse: StampParser, on: Option<int>) returns (r: Opened)
    ensures r == if on.None? then At(0) else Search(text, parse, WholeSecond(on.value), 0, |text|, |text|)
    // the file is left at a line boundary
    ensures r.At? ==> r.pos <= |text| && (r.pos == |text| || IsLineStart(text, r.pos))
    ensures r.At? && on.Some? && Chronological(text, parse) ==> Positioned(text, parse, WholeSecond(on.value), r.pos)
    // not yielding needs an unstamped end of the log, and is certain with one when no line qualifies
    ensures r.NotYielded? ==> on.Some? && HasUnstampedTail(text, parse)
    ensures on.Some? && NothingQualifies(text, parse, WholeSecond(on.value)) ==>
      (r.NotYielded? <==> HasUnstampedTail(text, parse))
    // in any log in order the course of the search decides both what is lost and whether anything is yielded
    ensures on.Some? && Chronological(text, parse) ==>
      (r.NotYielded? <==> SearchCourse(text, parse, WholeSecond(on.value)) == -1)
    ensures r.At? && on.Some? && Chronological(text, parse) ==>
      (Skipped(text, parse, WholeSecond(on.value), r.pos) - {0} == {} <==> Spared(text, parse, WholeSecond(on.value)))
  {
    hide Search, Positioned, Skipped, Spared, SearchCourse, NothingQualifies, HasUnstampedTail;
    if on.None? {
      return At(0);
    }
    var ok, pos, left, g, h := Bisect(text, parse, WholeSecond(on.value));
    if Chronological(text, parse) {
      CourseDecides(text, parse, WholeSecond(on.value));
    }
    if !ok {
      return NotYielded;
    }
    Crossing(text, parse, WholeSecond(on.value), left, g, h, pos);
    r := At(pos);
  }

  /** The bisection loop: it ends between an early probe and one that is not early. */
  method Bisect(text: string, parse: StampParser, t: int)
    returns (ok: bool, pos: nat, ghost left': int, ghost g: int, ghost h: int)
    ensures Search(text, parse, t, 0, |text|, |text|) == if ok then At(pos) else NotYielded
    ensures !ok ==> HasUnstampedTail(text, parse)
    ensures ok ==> 0 <= left' <= |text| + 1
    ensures ok ==> Below(text, parse, t, left', g) && Above(text, parse, t, left', h)
    ensures ok ==> Left(text, left', g, left', h, pos)
  {
    hide Search, ProbeAt, Hits, Early, Qualifies, HasUnstampedTail, LineEnd;
    var left, right := 0, |text|;
    ghost var hi := |text| + 1;
    pos, left', g, h := |text|, 0, 0, 0;
    while left <= right
      invariant 0 <= left <= hi <= |text| + 1 && hi == right + 1 && pos <= |text|
      invariant Search(text, parse, t, 0, |text|, |text|) == Search(text, parse, t, left, right, pos)
      invariant Below(text, parse, t, left, g)
      invariant Above(text, parse, t, hi, h)
      invariant left > 0 || hi <= |text| ==> Left(text, left, g, hi, h, pos)
      decreases right - left
    {
      var mid := (left + right) / 2;
      assert left <= mid <= right;
      var p;
      SearchStep(text, parse, t, left, right, pos);
      p, pos := Probe(text, parse, t, mid);
      match p
      case EndOfLog =>
        right, hi := mid - 1, mid;
      case NoStamp =>
        return false, pos, left, g, h;
      case Before(at) =>
        left, g := mid + 1, at;
      case AtOrAfter(at) =>
        right, hi, h := mid - 1, mid, at;
    }
    SearchEnd(text, parse, t, left, right, pos);
    ok, left' := true, left;
  }

  lemma SearchStep(text: string, parse: StampParser, t: int, left: nat, right: int, pos: nat)
    requires left <= right <= |text| && pos <= |text|
    ensures var mid := (left + right) / 2;
      var (p, pos') := ProbeAt(text, parse, t, mid);
      Search(text, parse, t, left, right, pos)
        == match p
           case NoStamp => NotYielded
           case Before(_) => Search(text, parse, t, mid + 1, right, pos')
           case EndOfLog => Search(text, parse, t, left, mid - 1, pos')
           case AtOrAfter(_) => Search(text, parse, t, left, mid - 1, pos')
  {
    hide ProbeAt;
  }

  lemma SearchEnd(text: string, parse: StampParser, t: int, left: nat, right: int, pos: nat)
    requires left == right + 1 && right <= |text| && pos <= |text|
    ensures Search(text, parse, t, left, right, pos) == At(pos)
  {
  }

  /** Where the file stands after a probe at `m` that did not find an early line. */
  ghost function AfterProbe(text: string, m: int, h: int): (pos: int)
    requires 0 <= m <= |text|
  {
    if LineEnd(text, m) == |text| then |text| else if 0 <= h <= |text| then LineEnd(text, h) else 0
  }

  /** The file stands where the last probe, at `left - 1` or at `m`, left it. */
  ghost predicate Left(text: string, left: int, g: int, m: int, h: int, pos: int) {
    || (left > 0 && 0 <= g <= |text| && pos == LineEnd(text, g))
    || (0 <= m <= |text| && pos == AfterProbe(text, m, h))
  }

  /** Beyond the crossing point the next stamped line is the one the probe at `left` hits. */
  lemma NextStampedAfter(text: string, parse: StampParser, t: int, left: nat, h: int, q: int)
    requires left <= |text| && Stamped(text, parse, q) && left < q
    requires Above(text, parse, t, left, h)
    ensures LineEnd(text, left) < |text| && h <= q
  {
    FragmentHidesNoLine(text, left, q);
  }

  /** The probe at `left - 1` ended on an early line, so that line starts at `left` or later. */
  lemma EarlyHitBound(text: string, parse: StampParser, left: int, g: int)
    requires left > 0 && Hits(text, parse, left - 1, g)
    ensures left <= |text| && left <= g
  {
  }

  lemma PastHasNoLateLine(text: string, parse: StampParser, t: int, g: int, q: int)
    requires Chronological(text, parse) && Early(text, parse, t, g) && Qualifies(text, parse, t, q)
    ensures LineEnd(text, g) <= q
  {
    FragmentHidesNoLine(text, g, q);
  }

  /** Last probe found an early line: the position is exactly the first qualifying place. */
  lemma CrossingFromBelow(text: string, parse: StampParser, t: int, left: int, g: int, h: int)
    requires left > 0 && Below(text, parse, t, left, g) && Above(text, parse, t, left, h)
    requires Chronological(text, parse)
    ensures forall q :: LineEnd(text, g) <= q && Stamped(text, parse, q) ==> StampAt(text, parse, q) >= t
    ensures Skipped(text, parse, t, LineEnd(text, g)) == {} && !Qualifies(text, parse, t, 0)
  {
    EarlyHitBound(text, parse, left, g);
    forall q | LineEnd(text, g) <= q && Stamped(text, parse, q) ensures StampAt(text, parse, q) >= t {
      NextStampedAfter(text, parse, t, left, h, q);
      assert h < q ==> StampAt(text, parse, h) <= StampAt(text, parse, q);
    }
    forall q | q in Skipped(text, parse, t, LineEnd(text, g)) ensures false {
      PastHasNoLateLine(text, parse, t, g, q);
    }
  }

  /** Last probe did not find an early line: the line it read, if any, is lost, and so is the first line of the log. */
  lemma CrossingFromAbove(text: string, parse: StampParser, t: int, left: int, g: int, h: int)
    requires 0 <= left <= |text|
    requires Below(text, parse, t, left, g) && Above(text, parse, t, left, h)
    requires Chronological(text, parse)
    ensures forall q :: AfterProbe(text, left, h) <= q && Stamped(text, parse, q) ==> StampAt(text, parse, q) >= t
    ensures AfterProbe(text, left, h) >= 0 && (text != "" ==> AfterProbe(text, left, h) > 0)
    ensures Skipped(text, parse, t, AfterProbe(text, left, h)) - {0}
         == if LineEnd(text, left) == |text| then {} else {h}
    ensures LineEnd(text, left) != |text| ==> FirstLate(text, parse, t, h)
  {
    hide LineEnd, LineAt, Below;
    var pos := AfterProbe(text, left, h);
    AllLater(text, parse, t, left, h);
    forall q | q in Skipped(text, parse, t, pos) && q != 0 ensures LineEnd(text, left) != |text| && q == h {
      LostIsHit(text, parse, t, left, g, h, q);
    }
    if LineEnd(text, left) != |text| {
      HitIsLost(text, parse, t, left, h);
      forall q | 0 < q < h ensures !Qualifies(text, parse, t, q) {
        if Qualifies(text, parse, t, q) {
          LostIsHit(text, parse, t, left, g, h, q);
        }
      }
    }
  }

  lemma AllLater(text: string, parse: StampParser, t: int, left: int, h: int)
    requires 0 <= left <= |text| && Above(text, parse, t, left, h) && Chronological(text, parse)
    ensures AfterProbe(text, left, h) >= 0 && (text != "" ==> AfterProbe(text, left, h) > 0)
    ensures forall q :: AfterProbe(text, left, h) <= q && Stamped(text, parse, q) ==> StampAt(text, parse, q) >= t
  {
    forall q | AfterProbe(text, left, h) <= q && Stamped(text, parse, q) ensures StampAt(text, parse, q) >= t {
      assert h < q ==> StampAt(text, parse, h) <= StampAt(text, parse, q);
    }
  }

  lemma HitIsLost(text: string, parse: StampParser, t: int, left: int, h: int)
    requires 0 <= left <= |text| && Above(text, parse, t, left, h) && LineEnd(text, left) != |text|
    ensures 0 < h < AfterProbe(text, left, h) && Qualifies(text, parse, t, h)
  {
  }

  lemma LostIsHit(text: string, parse: StampParser, t: int, left: int, g: int, h: int, q: int)
    requires 0 <= left <= |text|
    requires Below(text, parse, t, left, g) && Above(text, parse, t, left, h)
    requires Chronological(text, parse)
    requires q != 0 && q < AfterProbe(text, left, h) && Qualifies(text, parse, t, q)
    ensures LineEnd(text, left) != |text| && q == h
  {
    if left > 0 {
      EarlyHitBound(text, parse, left, g);
      PastHasNoLateLine(text, parse, t, g, q);
    }
    NextStampedAfter(text, parse, t, left, h, q);
    FragmentHidesNoLine(text, h, q);
  }

  /** Without a qualifying line the search can only end beside the last line, so a tail without stamps was probed. */
  lemma TailMustBeProbed(text: string, parse: StampParser, t: int, left: int, g: int, h: int, q: int)
    requires 0 <= left <= |text| + 1
    requires Below(text, parse, t, left, g) && Above(text, parse, t, left, h)
    requires NothingQualifies(text, parse, t)
    requires q > 0 && IsLineStart(text, q)
    ensures !UnstampedTail(text, parse, q)
  {
    if left > 0 {
      EarlyHitBound(text, parse, left, g);
    }
    FragmentHidesNoLine(text, left, q);
  }

  lemma CrossingAtBoundary(text: string, parse: StampParser, t: int, left: int, g: int, h: int, pos: nat)
    requires Above(text, parse, t, left, h) && Left(text, left, g, left, h, pos)
    ensures pos <= |text| && (pos == |text| || IsLineStart(text, pos))
  {
    hide LineAt;
  }

  lemma CrossingIsPositioned(text: string, parse: StampParser, t: int, left: int, g: int, h: int, pos: nat)
    requires 0 <= left <= |text| + 1 && Chronological(text, parse)
    requires Below(text, parse, t, left, g) && Above(text, parse, t, left, h)
    requires Left(text, left, g, left, h, pos)
    ensures Positioned(text, parse, t, pos)
  {
    hide LineEnd, LineAt, Hits, FirstLate, Chronological, Below, Above;
    if left > 0 && 0 <= g <= |text| && pos == LineEnd(text, g) {
      CrossingFromBelow(text, parse, t, left, g, h);
    } else {
      CrossingFromAbove(text, parse, t, left, g, h);
    }
  }

  /** The two probes on either side of the crossing point decide what the position means. */
  lemma Crossing(text: string, parse: StampParser, t: int, left: int, g: int, h: int, pos: nat)
    requires 0 <= left <= |text| + 1
    requires Below(text, parse, t, left, g) && Above(text, parse, t, left, h)
    requires Left(text, left, g, left, h, pos)
    ensures pos <= |text| && (pos == |text| || IsLineStart(text, pos))
    ensures Chronological(text, parse) ==> Positioned(text, parse, t, pos)
    ensures NothingQualifies(text, parse, t) ==> !HasUnstampedTail(text, parse)
  {
    hide Below, Above, Left, Positioned, Chronological, NothingQualifies, UnstampedTail;
    CrossingAtBoundary(text, parse, t, left, g, h, pos);
    if Chronological(text, parse) {
      CrossingIsPositioned(text, parse, t, left, g, h, pos);
    }
    if NothingQualifies(text, parse, t) {
      forall q | q > 0 && IsLineStart(text, q) ensures !UnstampedTail(text, parse, q) {
        TailMustBeProbed(text, parse, t, left, g, h, q);
      }
      assert !HasUnstampedTail(text, parse) by {
        TailNeedsLine(text, parse);
      }
    }
  }

  lemma TailNeedsLine(text: string, parse: StampParser)
    ensures forall q :: UnstampedTail(text, parse, q) ==> IsLineStart(text, q)
  {
  }

  // ---- What the course decides

  lemma {:induction false} NextStampedIs(text: string, parse: StampParser, at: nat)
    requires at == |text| || IsLineStart(text, at)
    ensures var r := NextStamped(text, parse, at);
      && (r.Some? ==> Stamped(text, parse, r.value) && NoStampIn(text, parse, at, r.value))
      && (r.None? ==> NoStampIn(text, parse, at, |text|))
    decreases |text| - at
  {
    hide NextStamped;
    if at == |text| {
      NextStampedEnd(text, parse);
    } else {
      NextStampedStep(text, parse, at);
      if parse(LineAt(text, at)).None? {
        NoStampInLine(text, parse, at, at);
        NextStampedIs(text, parse, LineEnd(text, at));
      }
    }
  }

  /** A line starts after the offset exactly if the probe there does not run into the end of the log. */
  lemma LinesAfter(text: string, m: nat)
    requires m <= |text|
    ensures LineEnd(text, m) == |text| <==> LastLine(text) <= m
    ensures LineEnd(text, m) == |text| || (IsLineStart(text, LineEnd(text, m)) && m < LineEnd(text, m))
  {
    assert LineEnd(text, m) < |text| ==> IsLineStart(text, LineEnd(text, m));
    if m < LastLine(text) {
      FragmentHidesNoLine(text, m, LastLine(text));
    }
  }

  /** What a probe finds depends on where its offset lies among the three. */
  lemma ProbeClass(text: string, parse: StampParser, t: int, m: nat)
    requires m <= |text| && Chronological(text, parse)
    ensures var (p, pos) := ProbeAt(text, parse, t, m);
      && (p.EndOfLog? <==> LastLine(text) <= m)
      && (p.NoStamp? <==> LastStamped(text, parse) <= m < LastLine(text))
      && (p.Before? <==> m < LastEarly(text, parse, t))
      && (p.EndOfLog? ==> pos == |text|)
      && (p.Before? ==> Early(text, parse, t, p.at))
      && (p.AtOrAfter? ==> 0 < p.at < pos && Qualifies(text, parse, t, p.at))
      && (p.Before? || p.AtOrAfter? ==> Hits(text, parse, m, p.at) && pos == LineEnd(text, p.at))
  {
    hide LastLine, LastStamped, LastEarly, NextStamped, LineEnd, Chronological, LineAt;
    LinesAfter(text, m);
    StampedBeforeLast(text, parse, t);
    if LineEnd(text, m) < |text| {
      NextClass(text, parse, t, m);
    }
  }

  lemma NextClass(text: string, parse: StampParser, t: int, m: nat)
    requires m <= |text| && Chronological(text, parse) && LineEnd(text, m) < |text|
    ensures var r := NextStamped(text, parse, LineEnd(text, m));
      && (r.None? <==> LastStamped(text, parse) <= m)
      && (r.Some? ==> m < r.value && Hits(text, parse, m, r.value))
      && (r.Some? ==> (Early(text, parse, t, r.value) <==> m < LastEarly(text, parse, t)))
  {
    hide LastStamped, LastEarly, NextStamped, LineEnd, LineAt;
    var s, c := LastStamped(text, parse), LastEarly(text, parse, t);
    LinesAfter(text, m);
    NextStampedIs(text, parse, LineEnd(text, m));
    if m < s {
      FragmentHidesNoLine(text, m, s);
    }
    if m < c {
      FragmentHidesNoLine(text, m, c);
    }
  }

  lemma StampedBeforeLast(text: string, parse: StampParser, t: int)
    ensures LastEarly(text, parse, t) <= LastStamped(text, parse) <= LastLine(text)
  {
    hide LastWhere;
    assert LastEarly(text, parse, t) > LastStamped(text, parse) ==> Stamped(text, parse, LastEarly(text, parse, t));
    assert LastStamped(text, parse) > LastLine(text) ==> IsLineStart(text, LastStamped(text, parse));
  }

  /** `last` is the probe that left the file at `pos` and moved one of the bounds. */
  ghost predicate LastProbe(text: string, parse: StampParser, t: int, left: nat, right: int, pos: nat, last: int) {
    0 <= last <= |text| && (last == left - 1 || last == right + 1) && pos == ProbeAt(text, parse, t, last).1
  }

  /** The search follows its course, which ends at the last early line or just before it. */
  lemma {:induction false} SearchFollowsCourse(text: string, parse: StampParser, t: int, left: nat, right: int,
                                               pos: nat, last: int)
    requires Chronological(text, parse) && left <= LastEarly(text, parse, t) <= right + 1 <= |text| + 1
    requires pos <= |text| && (left <= right || LastProbe(text, parse, t, left, right, pos, last))
    ensures var c := LastEarly(text, parse, t);
      var r := Course(left, right, c, LastStamped(text, parse), LastLine(text), last);
      && (Search(text, parse, t, left, right, pos).NotYielded? <==> r == -1)
      && (r != -1 ==> 0 <= r <= |text| && c - 1 <= r <= c)
      && (r != -1 ==> Search(text, parse, t, left, right, pos) == At(ProbeAt(text, parse, t, r).1))
    decreases right - left + 1
  {
    hide Search, ProbeAt, LastEarly, LastStamped, LastLine, Chronological, Early, Qualifies, LineEnd;
    if left > right {
      SearchEnd(text, parse, t, left, right, pos);
    } else {
      var mid := (left + right) / 2;
      SearchStep(text, parse, t, left, right, pos);
      ProbeClass(text, parse, t, mid);
      StampedBeforeLast(text, parse, t);
      var pos' := ProbeAt(text, parse, t, mid).1;
      if LastStamped(text, parse) <= mid < LastLine(text) {
      } else if mid < LastEarly(text, parse, t) {
        SearchFollowsCourse(text, parse, t, mid + 1, right, pos', mid);
      } else {
        SearchFollowsCourse(text, parse, t, left, mid - 1, pos', mid);
      }
    }
  }

  /** What a search whose last probe is at `r` loses. */
  lemma LostAfter(text: string, parse: StampParser, t: int, r: nat)
    requires Chronological(text, parse) && r <= |text|
    requires LastEarly(text, parse, t) - 1 <= r <= LastEarly(text, parse, t)
    requires !(LastStamped(text, parse) <= r < LastLine(text))
    ensures Skipped(text, parse, t, ProbeAt(text, parse, t, r).1) - {0} == {}
       <==> r < LastEarly(text, parse, t) || LastLine(text) <= r
  {
    hide LastEarly, LastStamped, LastLine, ProbeAt, LineEnd;
    var (p, pos) := ProbeAt(text, parse, t, r);
    ProbeClass(text, parse, t, r);
    if r < LastEarly(text, parse, t) {
      forall q | q in Skipped(text, parse, t, pos) ensures false {
        PastHasNoLateLine(text, parse, t, p.at, q);
      }
    } else if LastLine(text) <= r {
      forall q | q in Skipped(text, parse, t, pos) ensures q == 0 {
        assert q > 0 ==> IsLineStart(text, q) && q <= LastEarly(text, parse, t);
      }
    } else {
      assert p.at in Skipped(text, parse, t, pos) - {0};
    }
  }

  /**
   For every log in order the course of the bisection, a matter of four numbers, decides: nothing is yielded exactly
   if it meets the stretch between the last stamped and the last line, and apart from the first line of the log
   a qualifying line is lost exactly unless the last probe is below the last early line or not before the last line.
   */
  lemma CourseDecides(text: string, parse: StampParser, t: int)
    requires Chronological(text, parse)
    ensures var result := Search(text, parse, t, 0, |text|, |text|);
      && (result.NotYielded? <==> SearchCourse(text, parse, t) == -1)
      && (result.At? ==> (Skipped(text, parse, t, result.pos) - {0} == {} <==> Spared(text, parse, t)))
  {
    hide Search, ProbeAt, LastEarly, LastStamped, LastLine, Skipped, Course;
    SearchFollowsCourse(text, parse, t, 0, |text|, |text|, 0);
    var r := SearchCourse(text, parse, t);
    if r != -1 {
      CourseMeetsEarly(0, |text|, LastEarly(text, parse, t), LastStamped(text, parse), LastLine(text), 0);
      StampedBeforeLast(text, parse, t);
      LostAfter(text, parse, t, r);
    }
  }

  /** A course that goes on has probed `c`, and so `c` is not in the forbidden stretch. */
  lemma {:induction false} CourseMeetsEarly(left: nat, right: int, c: nat, s: nat, z: nat, last: int)
    requires left <= c <= right + 1 && (c <= right || !(s <= c < z))
    ensures Course(left, right, c, s, z, last) != -1 ==> !(s <= c < z)
    decreases right - left + 1
  {
    if left <= right {
      var mid := (left + right) / 2;
      if s <= mid < z {
      } else if mid < c {
        CourseMeetsEarly(mid + 1, right, c, s, z, mid);
      } else {
        CourseMeetsEarly(left, mid - 1, c, s, z, mid);
      }
    }
  }

  /** The file is left at a line boundary, and keeps what is promised of a position. */
  lemma SearchIsPositioned(text: string, parse: StampParser, t: int)
    requires Chronological(text, parse)
    ensures var result := Search(text, parse, t, 0, |text|, |text|);
      result.At? ==>
        && result.pos <= |text| && (result.pos == |text| || IsLineStart(text, result.pos))
        && Positioned(text, parse, t, result.pos)
  {
    hide Search, ProbeAt, LastEarly, LastStamped, LastLine, Course, Hits, Early, Qualifies, LineEnd, Positioned;
    var c, r := LastEarly(text, parse, t), SearchCourse(text, parse, t);
    SearchFollowsCourse(text, parse, t, 0, |text|, |text|, 0);
    if r != -1 {
      CourseMeetsEarly(0, |text|, c, LastStamped(text, parse), LastLine(text), 0);
      ProbeClass(text, parse, t, c);
      LinesAfter(text, c);
      StampedBeforeLast(text, parse, t);
      var (p, pos) := ProbeAt(text, parse, t, c);
      var h := if p.AtOrAfter? then p.at else 0;
      var g := 0;
      if c > 0 {
        ProbeClass(text, parse, t, c - 1);
        g := ProbeAt(text, parse, t, c - 1).0.at;
        HitInside(text, parse, c - 1, g);
      }
      if p.AtOrAfter? {
        HitInside(text, parse, c, h);
      }
      Crossing(text, parse, t, c, g, h, ProbeAt(text, parse, t, r).1);
    }
  }

  lemma HitInside(text: string, parse: StampParser, m: int, at: int)
    requires Hits(text, parse, m, at)
    ensures 0 <= at < |text|
  {
  }

  // ---- Logs the search does not serve well

  /** The ends of two lines of one character each. */
  lemma TwoShortLines(a: char, b: char)
    requires a != '\n' && b != '\n'
    ensures var text := [a, '\n', b, '\n'];
      && LineEnd(text, 0) == 2 && LineEnd(text, 2) == 4
      && LineAt(text, 0) == [a, '\n'] && LineAt(text, 2) == [b, '\n']
  {
    var text := [a, '\n', b, '\n'];
    LineEndIs(text, 0, 1);
    LineEndIs(text, 2, 3);
  }

  /** Between two stamps the second line, the only one that qualifies, is lost: the position is the end of the log. */
  lemma LostSecondLine(parse: StampParser, t: int)
    requires parse("1\n").Some? && parse("1\n").value < t && parse("5\n").Some? && t <= parse("5\n").value
    ensures Search("1\n5\n", parse, t, 0, 4, 4) == At(4) && Qualifies("1\n5\n", parse, t, 2)
  {
    var text := "1\n5\n";
    assert text == ['1', '\n', '5', '\n'];
    TwoShortLines('1', '5');
    hide LineEnd, LineAt;
    assert ProbeAt(text, parse, t, 2) == (EndOfLog, 4);
    assert ProbeAt(text, parse, t, 0) == (AtOrAfter(2), 4);
    assert Search(text, parse, t, 0, 1, 4) == At(4);
  }

  /** A last line without a stamp: no position is yielded at all. */
  lemma NotYieldedLog(parse: StampParser, t: int)
    requires parse("x\n").None?
    ensures Search("1\nx\n", parse, t, 0, 4, 4) == NotYielded
  {
    var text := "1\nx\n";
    assert text == ['1', '\n', 'x', '\n'];
    TwoShortLines('1', 'x');
    hide LineEnd, LineAt;
    assert ProbeAt(text, parse, t, 2) == (EndOfLog, 4);
    assert ProbeAt(text, parse, t, 0) == (NoStamp, 4);
    assert Search(text, parse, t, 0, 1, 4) == NotYielded;
  }
}
