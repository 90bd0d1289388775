/**
 `CommitLogCheckThread`: windows of ten minutes are queried one after the other at one
 second steps for shards whose commit log is over its limit; a shard whose samples in one
 window lie more than sixty seconds apart raises an error event.
 */
module CommitLogCheck {
  import opened Text

  const CHECK_INTERVAL: nat := 600
  const EXCEED_INTERVAL: nat := 60

  /** Whether a shard's commit log is over the limit at a time. */
  type Signal = (nat, real) -> bool

  // ---- The spread of a response

  ghost predicate SortedReals(xs: seq<real>) {
    |xs| < 2 || (xs[0] <= xs[1] && SortedReals(xs[1..]))
  }

  function Insert(xs: seq<real>, x: real): (r: seq<real>)
    ensures |r| == |xs| + 1 && r[0] == if xs == [] || x <= xs[0] then x else xs[0]
    ensures SortedReals(xs) ==> SortedReals(r)
  {
    if xs == [] || x <= xs[0] then [x] + xs else [xs[0]] + Insert(xs[1..], x)
  }

  /** `list.sort` */
  function Sort(xs: seq<real>): (r: seq<real>)
    ensures |r| == |xs| && SortedReals(r)
  {
    if xs == [] then [] else Insert(Sort(xs[1..]), xs[0])
  }

  lemma {:induction false} InsertPermutes(xs: seq<real>, x: real)
    ensures multiset(Insert(xs, x)) == multiset(xs) + multiset{x}
  {
    if xs != [] && x > xs[0] {
      InsertPermutes(xs[1..], x);
      assert xs == [xs[0]] + xs[1..];
    }
  }

  /** Sorting loses and invents nothing. */
  lemma {:induction false} SortPermutes(xs: seq<real>)
    ensures multiset(Sort(xs)) == multiset(xs)
  {
    if xs != [] {
      SortPermutes(xs[1..]);
      InsertPermutes(Sort(xs[1..]), xs[0]);
      assert xs == [xs[0]] + xs[1..];
    }
  }

  lemma {:induction false} SortedBounds(xs: seq<real>, i: nat)
    requires SortedReals(xs) && i < |xs|
    ensures xs[0] <= xs[i] <= xs[|xs| - 1]
  {
    if |xs| >= 2 {
      if i == 0 {
        SortedBounds(xs[1..], 0);
      } else {
        SortedBounds(xs[1..], i - 1);
      }
    }
  }

  /** The first and last element of the sorted list are the least and the greatest of the list. */
  lemma SortedEnds(xs: seq<real>)
    requires xs != []
    ensures Sort(xs)[0] in xs && Sort(xs)[|xs| - 1] in xs
    ensures forall x :: x in xs ==> Sort(xs)[0] <= x <= Sort(xs)[|xs| - 1]
  {
    hide Sort, SortedReals;
    var s := Sort(xs);
    SortPermutes(xs);
    assert s[0] in multiset(s) && s[|s| - 1] in multiset(s);
    forall x | x in xs ensures s[0] <= x <= s[|s| - 1] {
      assert x in multiset(s);
      var i :| 0 <= i < |s| && s[i] == x;
      SortedBounds(s, i);
    }
  }

  /** `d` is the largest distance between two samples of the line. */
  ghost predicate IsSpread(line: seq<real>, d: real) {
    (exists x, y :: x in line && y in line && d == y - x) && Within(line, d)
  }

  ghost predicate Within(line: seq<real>, d: real) {
    forall x, y :: x in line && y in line ==> y - x <= d
  }

  /** `d` is the largest spread among the lines of the response. */
  ghost predicate IsLargestSpread(response: seq<seq<real>>, d: real) {
    && (exists i :: 0 <= i < |response| && IsSpread(response[i], d))
    && (forall i :: 0 <= i < |response| ==> Within(response[i], d))
  }

  lemma SpreadOfEnds(line: seq<real>)
    requires line != []
    ensures IsSpread(line, Sort(line)[|line| - 1] - Sort(line)[0])
  {
    hide Sort;
    SortedEnds(line);
  }

  /** `get_commit_log_directory_max_exceed_time`; `None` is the IndexError of an empty list. */
  method MaxExceedTime(response: seq<seq<real>>) returns (r: Option<real>)
    ensures r.None? <==> response == [] || [] in response
    ensures r.Some? ==> IsLargestSpread(response, r.value)
  {
    hide Sort, IsSpread;
    var spreads: seq<real> := [];
    for k := 0 to |response|
      invariant |spreads| == k && [] !in response[..k]
      invariant forall i :: 0 <= i < k ==> IsSpread(response[i], spreads[i])
    {
      if response[k] == [] {
        return None;
      }
      var times := Sort(response[k]);
      SpreadOfEnds(response[k]);
      spreads := spreads + [times[|times| - 1] - times[0]];
    }
    if spreads == [] {
      return None;
    }
    var sorted := Sort(spreads);
    SortedEnds(spreads);
    r := Some(sorted[|sorted| - 1]);
    LargestOfSpreads(response, spreads, r.value);
  }

  lemma LargestOfSpreads(response: seq<seq<real>>, spreads: seq<real>, d: real)
    requires |spreads| == |response| && d in spreads && forall e :: e in spreads ==> e <= d
    requires forall i :: 0 <= i < |response| ==> IsSpread(response[i], spreads[i])
    ensures IsLargestSpread(response, d)
  {
    var m :| 0 <= m < |spreads| && spreads[m] == d;
    assert IsSpread(response[m], d);
    forall i | 0 <= i < |response| ensures Within(response[i], d) {
      assert spreads[i] in spreads && IsSpread(response[i], spreads[i]);
    }
  }

  // ---- One window

  /** The time of step `i` of a window. */
  function At(start: real, i: int): (t: real) {
    start + i as real
  }

  ghost predicate OverAt(over: Signal, shard: nat, start: real, i: int) {
    0 <= i <= CHECK_INTERVAL && over(shard, At(start, i))
  }

  /** One shard has two samples over the limit in the window, more than the allowed time apart. */
  ghost predicate ShardOverflows(over: Signal, shard: nat, start: real) {
    exists i, j :: OverAt(over, shard, start, i) && OverAt(over, shard, start, j) && j - i > EXCEED_INTERVAL
  }

  ghost predicate Overflows(over: Signal, shards: nat, start: real) {
    exists shard: nat :: shard < shards && ShardOverflows(over, shard, start)
  }

  /** The line is the samples of one shard over the limit in the window, both ends included. */
  ghost predicate IsLineOf(line: seq<real>, over: Signal, shard: nat, start: real) {
    && (forall i :: OverAt(over, shard, start, i) ==> At(start, i) in line)
    && (forall t :: t in line ==> exists i :: OverAt(over, shard, start, i) && t == At(start, i))
  }

  /** The range query: one line per shard that is over the limit at some step. */
  method Query(over: Signal, shards: nat, start: real) returns (response: seq<seq<real>>, ghost shardOf: seq<nat>)
    ensures |shardOf| == |response|
    ensures forall k :: 0 <= k < |response| ==>
      response[k] != [] && shardOf[k] < shards && IsLineOf(response[k], over, shardOf[k], start)
    ensures forall shard: nat, i :: shard < shards && OverAt(over, shard, start, i) ==> shard in shardOf
  {
    hide IsLineOf;
    response, shardOf := [], [];
    for shard: nat := 0 to shards
      invariant |shardOf| == |response|
      invariant forall k :: 0 <= k < |response| ==>
        response[k] != [] && shardOf[k] < shards && IsLineOf(response[k], over, shardOf[k], start)
      invariant forall s: nat, i :: s < shard && OverAt(over, s, start, i) ==> s in shardOf
    {
      var line := QueryShard(over, shard, start);
      if line != [] {
        response, shardOf := response + [line], shardOf + [shard];
      }
    }
  }

  method QueryShard(over: Signal, shard: nat, start: real) returns (line: seq<real>)
    ensures IsLineOf(line, over, shard, start)
    ensures line == [] ==> forall i :: !OverAt(over, shard, start, i)
  {
    line := [];
    for j := 0 to CHECK_INTERVAL + 1
      invariant forall i :: i < j && OverAt(over, shard, start, i) ==> At(start, i) in line
      invariant forall t :: t in line ==> exists i :: i < j && OverAt(over, shard, start, i) && t == At(start, i)
    {
      if over(shard, At(start, j)) {
        assert OverAt(over, shard, start, j);
        line := line + [At(start, j)];
      }
    }
  }

  lemma SpreadMeansOverflow(line: seq<real>, d: real, over: Signal, shard: nat, start: real)
    requires IsLineOf(line, over, shard, start) && IsSpread(line, d) && d > EXCEED_INTERVAL as real
    ensures ShardOverflows(over, shard, start)
  {
    var x, y :| x in line && y in line && d == y - x;
    var i :| OverAt(over, shard, start, i) && x == At(start, i);
    var j :| OverAt(over, shard, start, j) && y == At(start, j);
    assert d == (j - i) as real;
  }

  lemma OverflowMeansSpread(line: seq<real>, d: real, over: Signal, shard: nat, start: real)
    requires IsLineOf(line, over, shard, start) && Within(line, d) && ShardOverflows(over, shard, start)
    ensures d > EXCEED_INTERVAL as real
  {
    var i, j :| OverAt(over, shard, start, i) && OverAt(over, shard, start, j) && j - i > EXCEED_INTERVAL;
    assert At(start, j) - At(start, i) == (j - i) as real;
  }

  /** `overflow_commit_log_directory_checker`: an event is published exactly when some shard overflows in the window. */
  method CheckWindow(over: Signal, shards: nat, start: real) returns (event: bool)
    ensures event <==> Overflows(over, shards, start)
  {
    hide IsLineOf, IsSpread, ShardOverflows, OverAt;
    var response, shardOf := Query(over, shards, start);
    var spread: Option<real> := None;
    if response != [] {
      spread := MaxExceedTime(response);
    }
    event := spread.Some? && spread.value > EXCEED_INTERVAL as real;
    EventIsExact(over, shards, start, response, shardOf, spread);
  }

  lemma EventIsExact(over: Signal, shards: nat, start: real, response: seq<seq<real>>, shardOf: seq<nat>,
                     spread: Option<real>)
    requires |shardOf| == |response|
    requires forall k :: 0 <= k < |response| ==>
      response[k] != [] && shardOf[k] < shards && IsLineOf(response[k], over, shardOf[k], start)
    requires forall shard: nat, i :: shard < shards && OverAt(over, shard, start, i) ==> shard in shardOf
    requires if response == [] then spread.None? else spread.Some? && IsLargestSpread(response, spread.value)
    ensures spread.Some? && spread.value > EXCEED_INTERVAL as real <==> Overflows(over, shards, start)
  {
    hide IsLineOf, IsSpread, OverAt;
    if spread.Some? && spread.value > EXCEED_INTERVAL as real {
      var k :| 0 <= k < |response| && IsSpread(response[k], spread.value);
      SpreadMeansOverflow(response[k], spread.value, over, shardOf[k], start);
    }
    if Overflows(over, shards, start) {
      var shard: nat :| shard < shards && ShardOverflows(over, shard, start);
      var k :| 0 <= k < |shardOf| && shardOf[k] == shard;
      OverflowMeansSpread(response[k], spread.value, over, shard, start);
    }
  }

  // ---- The thread

  function WindowStart(t0: real, k: nat): (start: real) {
    t0 + (CHECK_INTERVAL * k) as real
  }

  /** How a query ends: with what Prometheus has, with an empty list after an unsuccessful request, or raising. */
  datatype Reply = Answered | Unsuccessful | Raised

  /**
   One round of the loop: the time at which it queries, how the query for overflows ends, and whether the one
   for free segments raises. The wait before it lasts the whole interval unless the thread is being stopped.
   */
  datatype Round = Round(now: real, reply: Reply, zeroRaises: bool)

  predicate Raises(r: Round) {
    r.reply.Raised? || r.zeroRaises
  }

  /** Round `k` is the first to raise, after `checks` finished checks for overflows. */
  ghost predicate EndedBy(rounds: seq<Round>, k: nat, checks: nat) {
    && k < |rounds| && Raises(rounds[k]) && NoneRaises(rounds[..k])
    && checks == if rounds[k].reply.Raised? then k else k + 1
  }

  ghost predicate NoneRaises(rounds: seq<Round>) {
    forall i :: 0 <= i < |rounds| ==> !Raises(rounds[i])
  }

  /** What can be known of the signal at the time `now`. */
  function Seen(over: Signal, now: real): (seen: Signal) {
    (shard: nat, t: real) => t <= now && over(shard, t)
  }

  /** Round `k` raises an overflow event. */
  ghost predicate Reports(over: Signal, shards: nat, t0: real, k: nat, r: Round) {
    r.reply.Answered? && Overflows(Seen(over, r.now), shards, WindowStart(t0, k))
  }

  /**
   `run_thread` over the rounds for which its guard holds: the windows tile the time from `t0` without a gap. A
   round that raises ends the thread with an event of its own.
   */
  method RunThread(over: Signal, shards: nat, t0: real, rounds: seq<Round>)
    returns (starts: seq<real>, events: seq<bool>, failed: bool)
    ensures |starts| == |events| <= |rounds|
    ensures forall k :: 0 <= k < |events| ==> starts[k] == WindowStart(t0, k) == t0 + (600 * k) as real
    ensures forall k :: 0 <= k < |events| ==> (events[k] <==> Reports(over, shards, t0, k, rounds[k]))
    ensures failed <==> exists k :: 0 <= k < |rounds| && Raises(rounds[k])
    ensures !failed ==> |events| == |rounds|
    ensures failed ==> exists k: nat :: EndedBy(rounds, k, |events|)
  {
    hide Overflows;
    var startTime := t0;
    starts, events := [], [];
    for k := 0 to |rounds|
      invariant startTime == WindowStart(t0, k) && |starts| == |events| == k
      invariant forall i :: 0 <= i < k ==> starts[i] == WindowStart(t0, i) && !Raises(rounds[i])
      invariant forall i :: 0 <= i < k ==> (events[i] <==> Reports(over, shards, t0, i, rounds[i]))
    {
      var intervalEnd := startTime + CHECK_INTERVAL as real;
      if rounds[k].reply.Raised? {
        assert EndedBy(rounds, k, |events|);
        return starts, events, true;
      }
      var event := false;
      if rounds[k].reply.Answered? {
        event := CheckWindow(Seen(over, rounds[k].now), shards, startTime);
      }
      starts, events := starts + [startTime], events + [event];
      if rounds[k].zeroRaises {
        assert EndedBy(rounds, k, |events|);
        return starts, events, true;
      }
      startTime := intervalEnd;
    }
    failed := false;
  }

  // ---- What the thread detects

  /** Some round that is reached raises an overflow event. */
  ghost predicate Detected(over: Signal, shards: nat, t0: real, rounds: seq<Round>) {
    exists k: nat :: k < |rounds| && Reports(over, shards, t0, k, rounds[k]) && NoneRaises(rounds[..k])
  }

  /** No round raises, and every one but the last, which a stop can cut short, queries after the end of its window. */
  ghost predicate Paced(t0: real, rounds: seq<Round>) {
    NoneRaises(rounds) && forall k :: 0 <= k < |rounds| - 1 ==> WindowStart(t0, k + 1) <= rounds[k].now
  }

  /** Step `i` from `t0` on lies in the windows, and before the last query. */
  ghost predicate Covered(t0: real, rounds: seq<Round>, i: int) {
    0 <= i <= CHECK_INTERVAL * |rounds| && (rounds != [] ==> At(t0, i) <= rounds[|rounds| - 1].now)
  }

  /** The rounds whose windows meet the steps from `a` to `b` are answered. */
  ghost predicate AnsweredBetween(rounds: seq<Round>, a: int, b: int) {
    forall k :: 0 <= k < |rounds| && CHECK_INTERVAL * k <= b && a <= CHECK_INTERVAL * (k + 1) ==>
      rounds[k].reply.Answered?
  }

  /** A window sees the steps of its own ten minutes. */
  lemma WindowSees(over: Signal, shards: nat, shard: nat, t0: real, k: nat, a: int, b: int)
    requires shard < shards && CHECK_INTERVAL * k <= a && b <= CHECK_INTERVAL * (k + 1) && b - a > EXCEED_INTERVAL
    requires over(shard, At(t0, a)) && over(shard, At(t0, b))
    ensures Overflows(over, shards, WindowStart(t0, k))
  {
    var start, i, j := WindowStart(t0, k), a - CHECK_INTERVAL * k, b - CHECK_INTERVAL * k;
    assert At(start, i) == At(t0, a) && At(start, j) == At(t0, b);
    assert OverAt(over, shard, start, i) && OverAt(over, shard, start, j);
    assert ShardOverflows(over, shard, start);
  }

  /** A round has seen the steps of its window up to a covered one. */
  lemma RoundSees(over: Signal, shards: nat, shard: nat, t0: real, rounds: seq<Round>, k: nat, a: int, b: int)
    requires shard < shards && k < |rounds| && Paced(t0, rounds) && Covered(t0, rounds, b) && rounds[k].reply.Answered?
    requires CHECK_INTERVAL * k <= a && b <= CHECK_INTERVAL * (k + 1) && b - a > EXCEED_INTERVAL
    requires over(shard, At(t0, a)) && over(shard, At(t0, b))
    ensures Detected(over, shards, t0, rounds)
  {
    hide Overflows;
    assert At(t0, b) <= rounds[k].now;
    WindowSees(Seen(over, rounds[k].now), shards, shard, t0, k, a, b);
    assert Reports(over, shards, t0, k, rounds[k]);
  }

  /**
   A shard over the limit at every step from `a` to `b` is detected if the steps are more than twice the
   allowed time apart, wherever the window boundaries fall.
   */
  lemma LongOverflowOfSamples(over: Signal, shards: nat, shard: nat, t0: real, rounds: seq<Round>, a: nat, b: nat)
    requires shard < shards && b - a > 2 * EXCEED_INTERVAL
    requires Paced(t0, rounds) && Covered(t0, rounds, b) && AnsweredBetween(rounds, a, b)
    requires forall i :: a <= i <= b ==> over(shard, At(t0, i))
    ensures Detected(over, shards, t0, rounds)
  {
    hide Reports, Paced;
    var k := a / CHECK_INTERVAL;
    var e := CHECK_INTERVAL * (k + 1);
    assert CHECK_INTERVAL * k <= a < e;
    if b <= e {
      RoundSees(over, shards, shard, t0, rounds, k, a, b);
    } else if e - a > EXCEED_INTERVAL {
      RoundSees(over, shards, shard, t0, rounds, k, a, e);
    } else {
      var last := if b <= e + CHECK_INTERVAL then b else e + CHECK_INTERVAL;
      RoundSees(over, shards, shard, t0, rounds, k + 1, e, last);
    }
  }

  const SURE: real := 122.0   // twice the allowed time and two steps

  /**
   In continuous time: an overflow of at least 122 seconds inside the windows, and over before the last query, is
   always detected if no round raises and those it concerns are answered.
   */
  lemma LongOverflow(over: Signal, shards: nat, shard: nat, t0: real, rounds: seq<Round>, a: real, b: real)
    requires shard < shards && t0 <= a && b <= t0 + (CHECK_INTERVAL * |rounds|) as real && b - a >= SURE
    requires Paced(t0, rounds) && (rounds != [] ==> b <= rounds[|rounds| - 1].now)
    requires forall k :: 0 <= k < |rounds| && WindowStart(t0, k) <= b && a <= WindowStart(t0, k + 1) ==>
      rounds[k].reply.Answered?
    requires forall t :: a <= t <= b ==> over(shard, t)
    ensures Detected(over, shards, t0, rounds)
  {
    hide Detected, Paced;
    var lo: int := -((t0 - a).Floor);
    var hi: int := (b - t0).Floor;
    assert (t0 - a).Floor as real <= t0 - a < (t0 - a).Floor as real + 1.0;
    assert hi as real <= b - t0 < hi as real + 1.0;
    assert (hi - lo) as real > 120.0;
    forall i | lo <= i <= hi ensures over(shard, At(t0, i)) {
      assert a <= At(t0, i) <= b;
    }
    assert AnsweredBetween(rounds, lo, hi) by {
      forall k: nat | k < |rounds| && CHECK_INTERVAL * k <= hi && lo <= CHECK_INTERVAL * (k + 1)
        ensures rounds[k].reply.Answered?
      {
        assert WindowStart(t0, k) <= t0 + hi as real <= b;
        assert a <= t0 + lo as real <= WindowStart(t0, k + 1);
      }
    }
    LongOverflowOfSamples(over, shards, shard, t0, rounds, lo, hi);
  }

  /** An overflow of `length` seconds around the boundary of the first two windows, on shard 0. */
  function Around(t0: real, length: real): (over: Signal) {
    (shard: nat, t: real) => shard == 0 &&
      t0 + CHECK_INTERVAL as real - length / 2.0 <= t <= t0 + CHECK_INTERVAL as real + length / 2.0
  }

  lemma AroundIsUnseen(t0: real, length: real, k: nat, i: int, j: int)
    requires 0.0 <= length < SURE
    requires OverAt(Around(t0, length), 0, WindowStart(t0, k), i)
    requires OverAt(Around(t0, length), 0, WindowStart(t0, k), j)
    ensures j - i <= EXCEED_INTERVAL
  {
    var x, y := CHECK_INTERVAL * k + i, CHECK_INTERVAL * k + j;
    assert At(WindowStart(t0, k), i) == t0 + x as real && At(WindowStart(t0, k), j) == t0 + y as real;
    assert -61.0 < (x - CHECK_INTERVAL) as real < 61.0 && -61.0 < (y - CHECK_INTERVAL) as real < 61.0;
    assert k == 0 || k == 1;
  }

  /** The bound is sharp: any shorter overflow can fall where no window raises an event, whenever the rounds query. */
  lemma ShorterOverflowCanHide(t0: real, length: real, shards: nat, rounds: seq<Round>)
    requires 0.0 <= length < SURE
    ensures !Detected(Around(t0, length), shards, t0, rounds)
    ensures var w := t0 + CHECK_INTERVAL as real;
      forall t :: w - length / 2.0 <= t <= w + length / 2.0 ==> Around(t0, length)(0, t)
  {
    var over := Around(t0, length);
    forall k: nat | k < |rounds| ensures !Reports(over, shards, t0, k, rounds[k]) {
      var start, seen := WindowStart(t0, k), Seen(over, rounds[k].now);
      forall shard: nat, i, j | OverAt(seen, shard, start, i) && OverAt(seen, shard, start, j)
        ensures j - i <= EXCEED_INTERVAL
      {
        assert shard == 0 && OverAt(over, 0, start, i) && OverAt(over, 0, start, j);
        AroundIsUnseen(t0, length, k, i, j);
      }
    }
  }
}
