/**
 `CoredumpThreadBase`: cores found on a node are queued, uploaded with a limited number of
 retries and up to a limited number of uploads, and the thread goes on after it is stopped
 until nothing is in progress. A core is known by its pid.
 */
module Coredump {

  type Pid = string

  const RETRY_LIMIT: nat := 3          // upload_retry_limit
  const MAX_EXCEPTIONS: nat := 10      // max_coredump_thread_exceptions

  /** What one try to upload a core comes to; the first two raise. */
  datatype Try = InfoRaises | UploadRaises | NotUploaded | Uploaded

  /** A core in a listing: whether its executable is a bash, and whether that could be looked up. */
  datatype Listed = Listed(pid: Pid, bash: bool, lookupOk: bool)

  /** One cycle's surroundings: the node is down; or it is up, tries come out as `tries` says and a listing is made. */
  datatype Input = Down | Up(tries: Pid -> Try, listing: seq<Listed>, listingOk: bool)

  /** `attempts` counts calls of upload_coredump, `publishes` of publish_event, `lost` those whose core was not kept. */
  datatype Pipeline = Pipeline(maxUploads: int, found: seq<Pid>, inProgress: seq<Pid>, completed: seq<Pid>,
                               uploaded: seq<Pid>, retries: map<Pid, nat>, attempts: map<Pid, nat>,
                               publishes: nat, lost: nat)

  function Fresh(maxUploads: int): (p: Pipeline) {
    Pipeline(maxUploads, [], [], [], [], map[], map[], 0, 0)
  }

  function Count(m: map<Pid, nat>, c: Pid): (n: nat) {
    if c in m then m[c] else 0
  }

  predicate LimitReached(p: Pipeline) {
    |p.uploaded| >= p.maxUploads
  }

  /** `list.remove` */
  function Remove(s: seq<Pid>, c: Pid): (r: seq<Pid>)
  {
    if s == [] then [] else if s[0] == c then s[1..] else [s[0]] + Remove(s[1..], c)
  }

  // ---- Processing

  function Complete(p: Pipeline, c: Pid): (p': Pipeline) {
    p.(inProgress := Remove(p.inProgress, c), completed := p.completed + [c])
  }

  function MarkUploaded(p: Pipeline, c: Pid): (p': Pipeline) {
    p.(uploaded := p.uploaded + [c], publishes := p.publishes + 1)
  }

  /** One round of the loop in `_process_coredumps`. */
  function ProcessOne(p: Pipeline, c: Pid, t: Try): (p': Pipeline) {
    if LimitReached(p) then p.(inProgress := Remove(p.inProgress, c))
    else
      var p1 := p.(retries := p.retries[c := Count(p.retries, c) + 1]);
      if RETRY_LIMIT < p1.retries[c] then Complete(p1, c)
      else if t.InfoRaises? then p1
      else
        var p2 := p1.(attempts := p1.attempts[c := Count(p1.attempts, c) + 1]);
        if t.UploadRaises? then p2 else if t.NotUploaded? then Complete(p2, c) else MarkUploaded(Complete(p2, c), c)
  }

  function ProcessAll(p: Pipeline, todo: seq<Pid>, tries: Pid -> Try): (p': Pipeline)
    decreases |todo|
  {
    if todo == [] then p else ProcessAll(ProcessOne(p, todo[0], tries(todo[0])), todo[1..], tries)
  }

  // ---- Discovery

  /** The listed cores not found before, up to the first whose executable cannot be looked up. */
  function Extract(listing: seq<Listed>, found: seq<Pid>): (r: (seq<Listed>, bool)) {
    if listing == [] then ([], true)
    else if listing[0].pid in found then Extract(listing[1..], found)
    else if !listing[0].lookupOk then ([], false)
    else
      var rest := Extract(listing[1..], found);
      ([listing[0]] + rest.0, rest.1)
  }

  function Pids(news: seq<Listed>): (r: seq<Pid>)
    ensures |r| == |news| && forall i :: 0 <= i < |news| ==> r[i] == news[i].pid
  {
    seq(|news|, i requires 0 <= i < |news| => news[i].pid)
  }

  function Queue(news: seq<Listed>): (r: seq<Pid>) {
    if news == [] then [] else (if news[0].bash then [] else [news[0].pid]) + Queue(news[1..])
  }

  function Push(p: Pipeline, news: seq<Listed>): (p': Pipeline) {
    p.(found := p.found + Pids(news),
       inProgress := if LimitReached(p) then p.inProgress else p.inProgress + Queue(news))
  }

  /** `main_cycle_body`; the flag says that it raised. */
  function Cycle(p: Pipeline, input: Input): (r: (Pipeline, bool)) {
    match input
    case Down => (p, false)
    case Up(tries, listing, listingOk) =>
      var p1 := ProcessAll(p, p.inProgress, tries);
      if !listingOk then (p1, true)
      else
        var (news, ok) := Extract(listing, p1.found);
        var p2 := p1.(publishes := p1.publishes + |news|);
        if ok then (Push(p2, news), false) else (p2.(lost := p2.lost + |news|), true)
  }

  // ---- What every cycle keeps

  predicate NoRepeats(s: seq<Pid>) {
    forall i, j :: 0 <= i < j < |s| ==> s[i] != s[j]
  }

  /** uploaded <= completed <= found, in_progress <= found and apart from completed; no list repeats a core. */
  ghost predicate ListsOk(p: Pipeline) {
    && NoRepeats(p.found) && NoRepeats(p.inProgress) && NoRepeats(p.completed) && NoRepeats(p.uploaded)
    && (forall c :: c in p.uploaded ==> c in p.completed)
    && (forall c :: c in p.completed ==> c in p.found)
    && (forall c :: c in p.inProgress ==> c in p.found && c !in p.completed)
  }

  /** Uploads, retries and attempts are within their limits. */
  ghost predicate LimitsOk(p: Pipeline) {
    && |p.uploaded| <= (if p.maxUploads < 0 then 0 else p.maxUploads)
    && (forall c :: c in p.inProgress ==> Count(p.retries, c) <= RETRY_LIMIT)
    && (forall c :: Count(p.attempts, c) <= RETRY_LIMIT && Count(p.attempts, c) <= Count(p.retries, c))
    && (forall c :: c !in p.found ==> Count(p.retries, c) == 0)
  }

  /** One publication per core found, one more per upload, and those of cores a failed cycle did not keep. */
  ghost predicate BooksOk(p: Pipeline) {
    p.publishes == |p.found| + |p.uploaded| + p.lost
  }

  ghost predicate Inv(p: Pipeline) {
    ListsOk(p) && LimitsOk(p) && BooksOk(p)
  }

  ghost predicate DistinctPids(listing: seq<Listed>) {
    forall i, j :: 0 <= i < j < |listing| ==> listing[i].pid != listing[j].pid
  }

  lemma RemoveKeeps(s: seq<Pid>, c: Pid)
    requires NoRepeats(s)
    ensures NoRepeats(Remove(s, c)) && forall x :: x in Remove(s, c) <==> x in s && x != c
  {
    if s != [] {
      assert s == [s[0]] + s[1..];
      assert s[0] !in s[1..];
      RemoveKeeps(s[1..], c);
      var rest := Remove(s[1..], c);
      assert forall k :: 0 <= k < |rest| ==> rest[k] in s[1..];
    }
  }

  lemma DropKeepsLists(p: Pipeline, c: Pid)
    requires ListsOk(p)
    ensures ListsOk(p.(inProgress := Remove(p.inProgress, c)))
    ensures forall x :: x in Remove(p.inProgress, c) ==> x in p.inProgress && x != c
  {
    hide Remove;
    RemoveKeeps(p.inProgress, c);
  }

  lemma CompleteKeepsLists(p: Pipeline, c: Pid)
    requires ListsOk(p) && c in p.inProgress
    ensures ListsOk(Complete(p, c)) && c in Complete(p, c).completed && c !in p.uploaded
    ensures forall x :: x in Complete(p, c).inProgress ==> x in p.inProgress && x != c
  {
    hide Remove;
    RemoveKeeps(p.inProgress, c);
  }

  lemma UploadKeepsLists(p: Pipeline, c: Pid)
    requires ListsOk(p) && c in p.completed && c !in p.uploaded
    ensures ListsOk(MarkUploaded(p, c))
  {
  }

  lemma ProcessOneLists(p: Pipeline, c: Pid, t: Try)
    requires ListsOk(p) && c in p.inProgress
    ensures ListsOk(ProcessOne(p, c, t))
    ensures ProcessOne(p, c, t).found == p.found
    ensures forall x :: x in ProcessOne(p, c, t).inProgress ==> x in p.inProgress
  {
    hide Complete, MarkUploaded, NoRepeats;
    DropKeepsLists(p, c);
    var p1 := p.(retries := p.retries[c := Count(p.retries, c) + 1]);
    CompleteKeepsLists(p1, c);
    SameLists(p1, c);
    var p2 := p1.(attempts := p1.attempts[c := Count(p1.attempts, c) + 1]);
    CompleteKeepsLists(p2, c);
    SameLists(p2, c);
    UploadKeepsLists(Complete(p2, c), c);
    UploadedLists(Complete(p2, c), c);
  }

  lemma SameLists(p: Pipeline, c: Pid)
    ensures Complete(p, c).uploaded == p.uploaded && Complete(p, c).found == p.found
    ensures Complete(p, c) == p.(inProgress := Complete(p, c).inProgress, completed := p.completed + [c])
  {
  }

  lemma UploadedLists(p: Pipeline, c: Pid)
    ensures MarkUploaded(p, c) == p.(uploaded := p.uploaded + [c], publishes := p.publishes + 1)
  {
  }

  /** A round touches only its own core: one more retry, and it stays in progress or leaves for good. */
  lemma ProcessOneFrame(p: Pipeline, c: Pid, t: Try)
    requires NoRepeats(p.inProgress)
    ensures forall x :: x != c ==> (x in ProcessOne(p, c, t).inProgress <==> x in p.inProgress)
    ensures forall x :: x != c ==> Count(ProcessOne(p, c, t).retries, x) == Count(p.retries, x)
    ensures c in ProcessOne(p, c, t).inProgress ==>
      Count(ProcessOne(p, c, t).retries, c) == Count(p.retries, c) + 1 <= RETRY_LIMIT
    ensures ProcessOne(p, c, t).lost == p.lost
  {
    hide Remove;
    RemoveKeeps(p.inProgress, c);
  }

  /** Where a round leaves its core: dropped at the upload limit, retried after a failure, completed otherwise. */
  lemma RoundOutcome(p: Pipeline, c: Pid, t: Try)
    requires ListsOk(p) && c in p.inProgress
    ensures var p' := ProcessOne(p, c, t);
      var tried := |p.uploaded| < p.maxUploads && Count(p.retries, c) < 3;
      && (c in p'.inProgress <==> tried && (t.InfoRaises? || t.UploadRaises?))
      && p'.uploaded == p.uploaded + (if tried && t.Uploaded? then [c] else [])
      && p'.completed == p.completed + (if |p.uploaded| < p.maxUploads && c !in p'.inProgress then [c] else [])
      && (Count(p'.attempts, c) == Count(p.attempts, c) + if tried && !t.InfoRaises? then 1 else 0)
  {
    hide Remove, NoRepeats;
    RemoveKeeps(p.inProgress, c);
    CompleteKeepsLists(p, c);
  }

  lemma ProcessOneLimits(p: Pipeline, c: Pid, t: Try)
    requires ListsOk(p) && LimitsOk(p) && c in p.inProgress
    ensures LimitsOk(ProcessOne(p, c, t))
  {
    hide Remove, ListsOk, NoRepeats;
    ListsOkParts(p);
    ProcessOneFrame(p, c, t);
    ProcessOneLists(p, c, t);
    var p' := ProcessOne(p, c, t);
    assert forall x :: x != c ==> Count(p'.attempts, x) == Count(p.attempts, x);
    assert Count(p'.attempts, c) <= RETRY_LIMIT && Count(p'.attempts, c) <= Count(p'.retries, c) by {
      assert Count(p.attempts, c) <= RETRY_LIMIT && Count(p.attempts, c) <= Count(p.retries, c);
    }
    assert forall x :: x in p'.inProgress ==> Count(p'.retries, x) <= RETRY_LIMIT;
  }

  lemma ListsOkParts(p: Pipeline)
    requires ListsOk(p)
    ensures NoRepeats(p.inProgress) && NoRepeats(p.found) && forall c :: c in p.inProgress ==> c in p.found
  {
    hide NoRepeats;
  }

  lemma ProcessOneBooks(p: Pipeline, c: Pid, t: Try)
    requires BooksOk(p)
    ensures BooksOk(ProcessOne(p, c, t))
  {
    hide Remove;
  }

  ghost predicate AllIn(todo: seq<Pid>, s: seq<Pid>) {
    forall c :: c in todo ==> c in s
  }

  /** The whole loop keeps the invariant, and every core still in progress afterwards has used one more retry. */
  lemma {:induction false} ProcessAllKeeps(p: Pipeline, todo: seq<Pid>, tries: Pid -> Try)
    requires Inv(p) && NoRepeats(todo) && AllIn(todo, p.inProgress)
    ensures var p' := ProcessAll(p, todo, tries);
      && Inv(p') && p'.found == p.found && p'.lost == p.lost && p'.maxUploads == p.maxUploads
      && (forall x :: x in p'.inProgress ==> x in p.inProgress)
      && (forall x :: x in p'.inProgress ==> Count(p'.retries, x) == Count(p.retries, x) + if x in todo then 1 else 0)
    decreases |todo|
  {
    hide ListsOk, LimitsOk, BooksOk, ProcessOne, Count;
    if todo != [] {
      var c := todo[0];
      var p1 := ProcessOne(p, c, tries(c));
      ListsOkParts(p);
      ProcessOneLists(p, c, tries(c));
      ProcessOneLimits(p, c, tries(c));
      ProcessOneBooks(p, c, tries(c));
      ProcessOneFrame(p, c, tries(c));
      ProcessOneMax(p, c, tries(c));
      assert todo == [c] + todo[1..] && c !in todo[1..];
      ProcessAllKeeps(p1, todo[1..], tries);
    }
  }

  lemma ProcessOneMax(p: Pipeline, c: Pid, t: Try)
    ensures ProcessOne(p, c, t).maxUploads == p.maxUploads
  {
  }

  lemma {:induction false} ExtractFacts(listing: seq<Listed>, found: seq<Pid>)
    ensures var news := Extract(listing, found).0;
      && (forall l :: l in news ==> l in listing && l.pid !in found)
      && (DistinctPids(listing) ==> DistinctPids(news))
    ensures (forall l :: l in listing ==> l.lookupOk) ==> Extract(listing, found).1
  {
    if listing != [] {
      assert listing == [listing[0]] + listing[1..];
      ExtractFacts(listing[1..], found);
      assert DistinctPids(listing) ==> DistinctPids(listing[1..]);
      var rest := Extract(listing[1..], found).0;
      if DistinctPids(listing) {
        forall k | 0 <= k < |rest| ensures rest[k].pid != listing[0].pid {
          assert rest[k] in listing[1..];
        }
      }
    }
  }

  // ---- What a listing brings

  /** The listed cores not found before, in order. */
  function New(listing: seq<Listed>, found: seq<Pid>): (r: seq<Listed>) {
    if listing == [] then []
    else
      var n := |listing| - 1;
      New(listing[..n], found) + if listing[n].pid in found then [] else [listing[n]]
  }

  /** A new core whose executable cannot be looked up. */
  predicate Unreadable(l: Listed, found: seq<Pid>) {
    l.pid !in found && !l.lookupOk
  }

  lemma {:induction false} NewStep(listing: seq<Listed>, found: seq<Pid>)
    requires listing != []
    ensures New(listing, found) == (if listing[0].pid in found then [] else [listing[0]]) + New(listing[1..], found)
    decreases |listing|
  {
    var n := |listing| - 1;
    if n > 0 {
      NewStep(listing[..n], found);
      assert listing[..n][1..] == listing[1..][..n - 1];
    } else {
      assert listing[..0] == [] == listing[1..];
    }
  }

  /** Exactly the new cores before the first unreadable one, `f`, are extracted, in order; it raises if there is one. */
  lemma {:induction false} ExtractIs(listing: seq<Listed>, found: seq<Pid>, f: nat)
    requires f <= |listing| && (forall i :: 0 <= i < f ==> !Unreadable(listing[i], found))
    requires f < |listing| ==> Unreadable(listing[f], found)
    ensures Extract(listing, found) == (New(listing[..f], found), f == |listing|)
    decreases |listing|
  {
    hide New;
    if f == 0 {
      NothingNew(found);
      assert listing[..0] == [];
    } else {
      assert !Unreadable(listing[0], found);
      assert forall i :: 0 <= i < |listing| - 1 ==> listing[1..][i] == listing[i + 1];
      ExtractIs(listing[1..], found, f - 1);
      NewStep(listing[..f], found);
      assert listing[..f][1..] == listing[1..][..f - 1];
      var rest := New(listing[1..][..f - 1], found);
      assert [] + rest == rest;
    }
  }

  lemma NothingNew(found: seq<Pid>)
    ensures New([], found) == []
  {
  }

  /** The queue takes the new cores one by one, leaving out those of a bash. */
  lemma {:induction false} QueueIs(news: seq<Listed>, l: Listed)
    ensures Queue([]) == [] && Queue(news + [l]) == Queue(news) + if l.bash then [] else [l.pid]
  {
    if news == [] {
      assert news + [l] == [l];
      assert Queue([l]) == (if l.bash then [] else [l.pid]) + Queue([]);
    } else {
      assert (news + [l])[1..] == news[1..] + [l];
      QueueIs(news[1..], l);
    }
  }

  lemma {:induction false} Queued(news: seq<Listed>, c: Pid)
    ensures c in Queue(news) <==> exists i :: 0 <= i < |news| && news[i].pid == c && !news[i].bash
  {
    if news != [] {
      Queued(news[1..], c);
      assert forall i :: 1 <= i < |news| ==> news[i] == news[1..][i - 1];
    }
  }

  /** What becomes of a new core: it is found, and in progress unless it is a bash or the limit is reached. */
  lemma PushOutcome(p: Pipeline, news: seq<Listed>, c: Pid)
    ensures var p' := Push(p, news);
      && (c in p'.found <==> c in p.found || exists i :: 0 <= i < |news| && news[i].pid == c)
      && (c in p'.inProgress <==>
            || c in p.inProgress
            || (|p.uploaded| < p.maxUploads && exists i :: 0 <= i < |news| && news[i].pid == c && !news[i].bash))
  {
    hide Queue;
    Queued(news, c);
    assert c in Pids(news) <==> exists i :: 0 <= i < |news| && Pids(news)[i] == c;
    assert c in p.found + Pids(news) <==> c in p.found || c in Pids(news);
  }

  lemma {:induction false} QueueFacts(news: seq<Listed>)
    requires DistinctPids(news)
    ensures NoRepeats(Queue(news)) && AllIn(Queue(news), Pids(news)) && NoRepeats(Pids(news))
  {
    if news != [] {
      QueueFacts(news[1..]);
      assert Pids(news) == [news[0].pid] + Pids(news[1..]);
      forall k | 0 <= k < |Queue(news[1..])| ensures Queue(news[1..])[k] != news[0].pid {
        assert Queue(news[1..])[k] in Pids(news[1..]);
        var j :| 0 <= j < |news| - 1 && Pids(news[1..])[j] == Queue(news[1..])[k];
        assert news[1..][j] == news[j + 1];
      }
    }
  }

  lemma AppendNoRepeats(a: seq<Pid>, b: seq<Pid>)
    requires NoRepeats(a) && NoRepeats(b) && forall c :: c in b ==> c !in a
    ensures NoRepeats(a + b)
  {
    assert forall k :: 0 <= k < |b| ==> b[k] in b;
    assert forall k :: 0 <= k < |a| ==> a[k] in a;
  }

  /** New cores keep the found list free of repetitions exactly when their pids are distinct. */
  lemma FoundStaysDistinctIff(found: seq<Pid>, news: seq<Listed>)
    requires NoRepeats(found) && forall l :: l in news ==> l.pid !in found
    ensures NoRepeats(found + Pids(news)) <==> DistinctPids(news)
  {
    var all := found + Pids(news);
    if DistinctPids(news) {
      forall c | c in Pids(news) ensures c !in found {
        var k :| 0 <= k < |news| && Pids(news)[k] == c;
        assert news[k] in news;
      }
      AppendNoRepeats(found, Pids(news));
    }
    if NoRepeats(all) {
      forall i, j | 0 <= i < j < |news| ensures news[i].pid != news[j].pid {
        assert all[|found| + i] == news[i].pid && all[|found| + j] == news[j].pid;
      }
    }
  }

  lemma PushLists(p: Pipeline, news: seq<Listed>)
    requires ListsOk(p) && DistinctPids(news) && forall l :: l in news ==> l.pid !in p.found
    ensures ListsOk(Push(p, news)) && (forall c :: c in Pids(news) ==> c !in p.found)
  {
    hide NoRepeats, Queue;
    QueueFacts(news);
    assert forall c :: c in Pids(news) ==> exists k :: 0 <= k < |news| && news[k] in news && c == news[k].pid;
    AppendNoRepeats(p.found, Pids(news));
    AppendNoRepeats(p.inProgress, Queue(news));
  }

  lemma PushLimits(p: Pipeline, news: seq<Listed>)
    requires LimitsOk(p) && AllIn(Queue(news), Pids(news)) && forall c :: c in Pids(news) ==> c !in p.found
    ensures LimitsOk(Push(p, news))
  {
    hide Count, Queue;
  }

  lemma PushKeeps(p: Pipeline, news: seq<Listed>)
    requires Inv(p) && DistinctPids(news) && forall l :: l in news ==> l.pid !in p.found
    ensures Inv(Push(p.(publishes := p.publishes + |news|), news))
  {
    hide ListsOk, LimitsOk, DistinctPids, Queue;
    var p1 := p.(publishes := p.publishes + |news|);
    OtherFields(p, p1);
    PushLists(p1, news);
    QueueFacts(news);
    PushLimits(p1, news);
  }

  /** The lists and limits do not depend on the publication counters. */
  lemma OtherFields(p: Pipeline, q: Pipeline)
    requires q == p.(publishes := q.publishes, lost := q.lost)
    ensures ListsOk(p) ==> ListsOk(q)
    ensures LimitsOk(p) ==> LimitsOk(q)
  {
  }

  /** Unless the cycle fails before that, the cores it adds have different pids. */
  ghost predicate NewsDistinct(p: Pipeline, input: Input) {
    input.Up? && input.listingOk && Extract(input.listing, p.found).1 ==>
      DistinctPids(Extract(input.listing, p.found).0)
  }

  lemma ProcessOneKeepsFound(p: Pipeline, c: Pid, t: Try)
    ensures var p' := ProcessOne(p, c, t); p'.found == p.found && p'.lost == p.lost
  {
  }

  lemma {:induction false} ProcessAllKeepsFound(p: Pipeline, todo: seq<Pid>, tries: Pid -> Try)
    ensures var p' := ProcessAll(p, todo, tries); p'.found == p.found && p'.lost == p.lost
    ensures BooksOk(p) ==> BooksOk(ProcessAll(p, todo, tries))
    decreases |todo|
  {
    hide ProcessOne, BooksOk;
    if todo != [] {
      ProcessOneKeepsFound(p, todo[0], tries(todo[0]));
      if BooksOk(p) {
        ProcessOneBooks(p, todo[0], tries(todo[0]));
      }
      ProcessAllKeepsFound(ProcessOne(p, todo[0], tries(todo[0])), todo[1..], tries);
    }
  }

  /** A cycle keeps the invariant exactly when the cores it adds have different pids. */
  lemma CycleKeeps(p: Pipeline, input: Input)
    requires Inv(p)
    ensures Inv(Cycle(p, input).0) <==> NewsDistinct(p, input)
    ensures Cycle(p, input).0.maxUploads == p.maxUploads
  {
    hide ListsOk, LimitsOk, ProcessAll, DistinctPids, Extract, NoRepeats, Queue;
    if input.Up? {
      ListsOkParts(p);
      ProcessAllKeeps(p, p.inProgress, input.tries);
      var p1 := ProcessAll(p, p.inProgress, input.tries);
      ExtractFacts(input.listing, p1.found);
      var (news, ok) := Extract(input.listing, p1.found);
      var p2 := p1.(publishes := p1.publishes + |news|);
      OtherFields(p1, p2.(lost := p2.lost + |news|));
      if DistinctPids(news) {
        PushKeeps(p1, news);
      } else {
        FoundStaysDistinctIff(p1.found, news);
        RepeatsBreak(Push(p2, news));
      }
    }
  }

  lemma RepeatsBreak(p: Pipeline)
    requires !NoRepeats(p.found)
    ensures !ListsOk(p)
  {
  }

  lemma {:induction false} ExtractAll(listing: seq<Listed>, found: seq<Pid>)
    ensures Extract(listing, found).1 <==> forall l :: l in listing ==> !Unreadable(l, found)
    ensures Extract(listing, found).1 ==>
      forall i :: 0 <= i < |listing| ==> listing[i].pid in found || listing[i] in Extract(listing, found).0
  {
    if listing != [] {
      assert listing == [listing[0]] + listing[1..] && listing[0] in listing;
      assert forall l :: l in listing <==> l == listing[0] || l in listing[1..];
      ExtractAll(listing[1..], found);
    }
  }

  /**
   A cycle raises exactly if it finds the node up and the listing or the lookup of a new core fails. If it does
   not, every core it lists is found afterwards.
   */
  lemma CycleRaisesIff(p: Pipeline, input: Input)
    ensures var (p', raised) := Cycle(p, input);
      && (raised <==> input.Up? && (!input.listingOk || exists l :: l in input.listing && Unreadable(l, p.found)))
      && (input.Up? && !raised ==> forall i :: 0 <= i < |input.listing| ==> input.listing[i].pid in p'.found)
      && (input.Down? ==> p' == p)
  {
    hide ProcessAll, Extract, Queue, Unreadable;
    if input.Up? {
      ProcessAllKeepsFound(p, p.inProgress, input.tries);
      ExtractAll(input.listing, p.found);
      var news := Extract(input.listing, p.found).0;
      forall i | 0 <= i < |input.listing| && input.listing[i] in news ensures input.listing[i].pid in Pids(news) {
        var k :| 0 <= k < |news| && news[k] == input.listing[i];
        assert Pids(news)[k] == input.listing[i].pid;
      }
    }
  }

  // ---- Runs

  function Exec(p: Pipeline, inputs: seq<Input>): (p': Pipeline)
    decreases |inputs|
  {
    if inputs == [] then p else Exec(Cycle(p, inputs[0]).0, inputs[1..])
  }

  ghost predicate NewsAlwaysDistinct(p: Pipeline, inputs: seq<Input>)
    decreases |inputs|
  {
    inputs == [] || (NewsDistinct(p, inputs[0]) && NewsAlwaysDistinct(Cycle(p, inputs[0]).0, inputs[1..]))
  }

  lemma FoundGrows(p: Pipeline, input: Input)
    ensures p.found <= Cycle(p, input).0.found
  {
    hide ProcessAll, Extract;
    if input.Up? {
      ProcessAllKeepsFound(p, p.inProgress, input.tries);
    }
  }

  lemma {:induction false} RepeatsStay(p: Pipeline, inputs: seq<Input>)
    requires !NoRepeats(p.found)
    ensures !NoRepeats(Exec(p, inputs).found)
    decreases |inputs|
  {
    hide Cycle;
    if inputs != [] {
      FoundGrows(p, inputs[0]);
      RepeatsStay(Cycle(p, inputs[0]).0, inputs[1..]);
    }
  }

  lemma {:induction false} ExecKeeps(p: Pipeline, inputs: seq<Input>)
    requires Inv(p)
    ensures Inv(Exec(p, inputs)) <==> NewsAlwaysDistinct(p, inputs)
    decreases |inputs|
  {
    hide LimitsOk, BooksOk, Cycle, NewsDistinct, NoRepeats, ListsOk;
    if inputs != [] {
      CycleKeeps(p, inputs[0]);
      if NewsDistinct(p, inputs[0]) {
        ExecKeeps(Cycle(p, inputs[0]).0, inputs[1..]);
      } else {
        BrokenByRepeats(p, inputs[0]);
        RepeatsStay(Cycle(p, inputs[0]).0, inputs[1..]);
        RepeatsBreak(Exec(p, inputs));
      }
    }
  }

  lemma BrokenByRepeats(p: Pipeline, input: Input)
    requires Inv(p) && !NewsDistinct(p, input)
    ensures !NoRepeats(Cycle(p, input).0.found)
  {
    hide ProcessAll, Extract, NoRepeats, DistinctPids, LimitsOk, BooksOk, ListsOk;
    ProcessAllKeepsFound(p, p.inProgress, input.tries);
    ListsOkParts(p);
    ExtractFacts(input.listing, p.found);
    FoundStaysDistinctIff(p.found, Extract(input.listing, p.found).0);
  }

  /**
   In every run, whatever fails: the lists stay in order, the limits hold and the publications
   add up, exactly as long as no listing brings two new cores with one pid.
   */
  lemma PipelineSafety(maxUploads: int, inputs: seq<Input>)
    ensures Inv(Exec(Fresh(maxUploads), inputs)) <==> NewsAlwaysDistinct(Fresh(maxUploads), inputs)
  {
    ExecKeeps(Fresh(maxUploads), inputs);
  }

  ghost predicate GoodInputs(inputs: seq<Input>) {
    forall i :: 0 <= i < |inputs| && inputs[i].Up? ==> DistinctPids(inputs[i].listing)
  }

  /** Listings that repeat no pid are enough. */
  lemma {:induction false} GoodInputsSuffice(p: Pipeline, inputs: seq<Input>)
    requires GoodInputs(inputs)
    ensures NewsAlwaysDistinct(p, inputs)
    decreases |inputs|
  {
    hide Cycle, Extract, DistinctPids;
    if inputs != [] {
      if inputs[0].Up? {
        ExtractFacts(inputs[0].listing, p.found);
      }
      GoodInputsSuffice(Cycle(p, inputs[0]).0, inputs[1..]);
    }
  }

  ghost predicate LookupsSucceed(inputs: seq<Input>) {
    forall i :: 0 <= i < |inputs| && inputs[i].Up? ==> forall l :: l in inputs[i].listing ==> l.lookupOk
  }

  /** The publications add up in every run, and only a failed executable lookup can lose one. */
  lemma {:induction false} BooksStay(p: Pipeline, inputs: seq<Input>)
    requires BooksOk(p)
    ensures BooksOk(Exec(p, inputs))
    ensures LookupsSucceed(inputs) ==> Exec(p, inputs).lost == p.lost
    decreases |inputs|
  {
    hide ProcessAll, Extract, Queue;
    if inputs != [] {
      if inputs[0].Up? {
        ProcessAllKeepsFound(p, p.inProgress, inputs[0].tries);
        ExtractFacts(inputs[0].listing, p.found);
      }
      BooksStay(Cycle(p, inputs[0]).0, inputs[1..]);
    }
  }

  /** If no executable lookup fails, a core is published once when found and once more when uploaded. */
  lemma PublishedOncePerFindAndUpload(maxUploads: int, inputs: seq<Input>)
    requires LookupsSucceed(inputs)
    ensures var p := Exec(Fresh(maxUploads), inputs); p.publishes == |p.found| + |p.uploaded|
  {
    BooksStay(Fresh(maxUploads), inputs);
  }

  // ---- The thread's loop

  datatype Ended = StillRunning | Exited | Crashed

  /**
   `run`: `beforeStop` is how many more times the stop flag is found unset. The loop ends when the flag is set
   and nothing is in progress, or by the tenth cycle in a row that raised.
   */
  function Run(p: Pipeline, inputs: seq<Input>, beforeStop: nat, exceptions: nat): (r: (Pipeline, Ended, nat))
    decreases |inputs|
  {
    if beforeStop == 0 && p.inProgress == [] then (p, Exited, 0)
    else if inputs == [] then (p, StillRunning, 0)
    else
      var (p', raised) := Cycle(p, inputs[0]);
      if raised && exceptions + 1 == MAX_EXCEPTIONS then (p', Crashed, 1)
      else
        var (last, ended, used) := Run(p', inputs[1..], if beforeStop == 0 then 0 else beforeStop - 1,
                                       if raised then exceptions + 1 else 0);
        (last, ended, used + 1)
  }

  /** Cycle `k` of a run raises. */
  predicate RaisedAt(p: Pipeline, inputs: seq<Input>, k: nat)
    requires k < |inputs|
  {
    Cycle(Exec(p, inputs[..k]), inputs[k]).1
  }

  /** How many cycles up to the `k`-th have raised in a row, when `exceptions` had before. */
  function InARow(p: Pipeline, inputs: seq<Input>, k: nat, exceptions: nat): (n: nat)
    requires k <= |inputs|
  {
    if k == 0 then exceptions else if RaisedAt(p, inputs, k - 1) then InARow(p, inputs, k - 1, exceptions) + 1 else 0
  }

  /** The stop flag is set and nothing is in progress after `k` cycles. */
  predicate DoneAt(p: Pipeline, inputs: seq<Input>, beforeStop: nat, k: nat)
    requires k <= |inputs|
  {
    beforeStop <= k && Exec(p, inputs[..k]).inProgress == []
  }

  lemma ExecShift(p: Pipeline, inputs: seq<Input>, k: nat)
    requires k < |inputs|
    ensures Exec(p, inputs[..k + 1]) == Exec(Cycle(p, inputs[0]).0, inputs[1..][..k])
  {
    hide Cycle;
    assert inputs[..k + 1][1..] == inputs[1..][..k];
  }

  lemma {:induction false} InARowShift(p: Pipeline, inputs: seq<Input>, k: nat, exceptions: nat)
    requires k < |inputs|
    ensures var (p', raised) := Cycle(p, inputs[0]);
      InARow(p, inputs, k + 1, exceptions) == InARow(p', inputs[1..], k, if raised then exceptions + 1 else 0)
    decreases k
  {
    hide Cycle, Exec;
    if k == 0 {
      assert inputs[..0] == [];
      ExecNothing(p);
    } else {
      ExecShift(p, inputs, k - 1);
      InARowShift(p, inputs, k - 1, exceptions);
    }
  }

  lemma ExecNothing(p: Pipeline)
    ensures Exec(p, []) == p
  {
  }

  /** How a run of `used` cycles has ended: by the tenth exception in a row, done after the stop, or not at all. */
  ghost predicate EndsAs(p: Pipeline, inputs: seq<Input>, beforeStop: nat, exceptions: nat, ended: Ended, used: nat)
    requires used <= |inputs|
  {
    && (ended == Crashed <==> InARow(p, inputs, used, exceptions) == 10)
    && (ended == Exited <==> InARow(p, inputs, used, exceptions) < 10 && DoneAt(p, inputs, beforeStop, used))
    && (ended == StillRunning ==> used == |inputs|)
    && (forall k :: 0 <= k < used ==>
          InARow(p, inputs, k, exceptions) < 10 && !DoneAt(p, inputs, beforeStop, k))
  }

  lemma EndsLater(p: Pipeline, inputs: seq<Input>, beforeStop: nat, exceptions: nat, ended: Ended, used: nat)
    requires inputs != [] && used <= |inputs| - 1 && exceptions < MAX_EXCEPTIONS
    requires beforeStop > 0 || p.inProgress != []
    requires var (p', raised) := Cycle(p, inputs[0]);
      EndsAs(p', inputs[1..], if beforeStop == 0 then 0 else beforeStop - 1, if raised then exceptions + 1 else 0,
             ended, used)
    ensures EndsAs(p, inputs, beforeStop, exceptions, ended, used + 1)
  {
    hide Cycle, Exec, InARow;
    ExecShift(p, inputs, used);
    InARowShift(p, inputs, used, exceptions);
    forall k | 0 <= k < used + 1
      ensures InARow(p, inputs, k, exceptions) < 10 && !DoneAt(p, inputs, beforeStop, k)
    {
      if k == 0 {
        assert inputs[..0] == [];
        ExecNothing(p);
        NotYetInARow(p, inputs, exceptions);
      } else {
        ExecShift(p, inputs, k - 1);
        InARowShift(p, inputs, k - 1, exceptions);
      }
    }
  }

  lemma NotYetInARow(p: Pipeline, inputs: seq<Input>, exceptions: nat)
    ensures InARow(p, inputs, 0, exceptions) == exceptions
  {
  }

  /**
   What the thread's loop does, in any surroundings and at any time: it goes on until ten cycles in a row have raised,
   when it crashes, or until the stop flag is set and nothing is in progress, when it exits; and
   it does nothing but its cycles.
   */
  lemma {:induction false} RunIs(p: Pipeline, inputs: seq<Input>, beforeStop: nat, exceptions: nat)
    requires exceptions < MAX_EXCEPTIONS
    ensures var (last, ended, used) := Run(p, inputs, beforeStop, exceptions);
      used <= |inputs| && last == Exec(p, inputs[..used]) && EndsAs(p, inputs, beforeStop, exceptions, ended, used)
    decreases |inputs|
  {
    hide Cycle, InARow, EndsAs, Exec;
    assert inputs[..0] == [];
    ExecNothing(p);
    if (beforeStop == 0 && p.inProgress == []) || inputs == [] {
      EndsNow(p, inputs, beforeStop, exceptions);
    } else {
      var (p', raised) := Cycle(p, inputs[0]);
      ExecShift(p, inputs, 0);
      assert inputs[1..][..0] == [];
      ExecNothing(p');
      if raised && exceptions + 1 == MAX_EXCEPTIONS {
        CrashesNow(p, inputs, beforeStop, exceptions);
      } else {
        var left, count := if beforeStop == 0 then 0 else beforeStop - 1, if raised then exceptions + 1 else 0;
        RunIs(p', inputs[1..], left, count);
        var (_, ended, used) := Run(p', inputs[1..], left, count);
        EndsLater(p, inputs, beforeStop, exceptions, ended, used);
        ExecShift(p, inputs, used);
      }
    }
  }

  lemma EndsNow(p: Pipeline, inputs: seq<Input>, beforeStop: nat, exceptions: nat)
    requires exceptions < MAX_EXCEPTIONS
    ensures beforeStop == 0 && p.inProgress == [] ==> EndsAs(p, inputs, beforeStop, exceptions, Exited, 0)
    ensures !(beforeStop == 0 && p.inProgress == []) && inputs == [] ==>
      EndsAs(p, inputs, beforeStop, exceptions, StillRunning, 0)
  {
    assert inputs[..0] == [];
  }

  lemma CrashesNow(p: Pipeline, inputs: seq<Input>, beforeStop: nat, exceptions: nat)
    requires inputs != [] && exceptions + 1 == MAX_EXCEPTIONS && Cycle(p, inputs[0]).1
    requires !(beforeStop == 0 && p.inProgress == [])
    ensures EndsAs(p, inputs, beforeStop, exceptions, Crashed, 1)
  {
    hide Cycle;
    assert inputs[..0] == [] && Exec(p, inputs[..0]) == p;
    assert RaisedAt(p, inputs, 0) && InARow(p, inputs, 0, exceptions) == exceptions;
    assert InARow(p, inputs, 1, exceptions) == exceptions + 1;
  }

  /** Ten in a row, said cycle by cycle, for a run that starts afresh. */
  lemma {:induction false} TenInARow(p: Pipeline, inputs: seq<Input>, k: nat, n: nat)
    requires k <= |inputs| && n <= k
    ensures InARow(p, inputs, k, 0) >= n <==> forall i :: k - n <= i < k ==> RaisedAt(p, inputs, i)
    decreases k
  {
    hide RaisedAt;
    if k > 0 && n > 0 {
      TenInARow(p, inputs, k - 1, n - 1);
    }
  }

  /** The loop does not exit before it is told to stop. */
  lemma NeverExitsEarly(p: Pipeline, inputs: seq<Input>, beforeStop: nat, exceptions: nat)
    requires exceptions < MAX_EXCEPTIONS && Run(p, inputs, beforeStop, exceptions).1 == Exited
    ensures Run(p, inputs, beforeStop, exceptions).2 >= beforeStop
  {
    hide Run, InARow, Exec;
    RunIs(p, inputs, beforeStop, exceptions);
  }

  /** The node is up and lists no core that is not known already; the listing itself may fail. */
  ghost predicate Quiet(input: Input, found: seq<Pid>) {
    input.Up? && forall l :: l in input.listing ==> l.pid in found
  }

  /** In every cycle the node is down, or up with no new core. */
  ghost predicate Calm(inputs: seq<Input>, found: seq<Pid>) {
    forall i :: 0 <= i < |inputs| ==> inputs[i].Down? || Quiet(inputs[i], found)
  }

  /** The cycles that find the node up. */
  function Ups(inputs: seq<Input>): (n: nat)
    ensures n <= |inputs|
  {
    if inputs == [] then 0 else (if inputs[0].Up? then 1 else 0) + Ups(inputs[1..])
  }

  /** The cycles whose listing raises. */
  function Raising(inputs: seq<Input>): (n: nat)
    ensures n <= Ups(inputs)
  {
    if inputs == [] then 0 else (if inputs[0].Up? && !inputs[0].listingOk then 1 else 0) + Raising(inputs[1..])
  }

  lemma {:induction false} NothingToExtract(listing: seq<Listed>, found: seq<Pid>)
    requires forall l :: l in listing ==> l.pid in found
    ensures Extract(listing, found) == ([], true)
  {
    if listing != [] {
      NothingToExtract(listing[1..], found);
    }
  }

  /** In a quiet cycle every core in progress leaves or uses up one of its retries. */
  lemma QuietCycle(p: Pipeline, input: Input)
    requires Inv(p) && Quiet(input, p.found)
    ensures var p' := Cycle(p, input).0;
      && Inv(p') && p'.found == p.found && Cycle(p, input).1 == !input.listingOk
      && (forall c :: c in p'.inProgress ==> c in p.inProgress && Count(p'.retries, c) == Count(p.retries, c) + 1)
  {
    hide ListsOk, LimitsOk, NoRepeats, ProcessAll, Extract;
    ListsOkParts(p);
    ProcessAllKeeps(p, p.inProgress, input.tries);
    var p1 := ProcessAll(p, p.inProgress, input.tries);
    NothingToExtract(input.listing, p1.found);
    PushNothing(p1);
  }

  lemma PushNothing(p: Pipeline)
    ensures Push(p.(publishes := p.publishes + 0), []) == p
  {
  }

  ghost predicate TriedAtLeast(p: Pipeline, j: nat) {
    forall c :: c in p.inProgress ==> j <= Count(p.retries, c) <= RETRY_LIMIT
  }

  /** One step of the stopped loop. */
  lemma RunStep(p: Pipeline, inputs: seq<Input>, exceptions: nat)
    requires p.inProgress != [] && inputs != []
    ensures var (p', raised) := Cycle(p, inputs[0]);
      var rest := Run(p', inputs[1..], 0, if raised then exceptions + 1 else 0);
      Run(p, inputs, 0, exceptions)
        == if raised && exceptions + 1 == MAX_EXCEPTIONS then (p', Crashed, 1) else (rest.0, rest.1, rest.2 + 1)
  {
    hide Cycle;
  }

  lemma UsedStep(inputs: seq<Input>, used: nat)
    requires 0 < used <= |inputs|
    ensures Ups(inputs[..used]) == (if inputs[0].Up? then 1 else 0) + Ups(inputs[1..][..used - 1])
    ensures Raising(inputs[..used])
         == (if inputs[0].Up? && !inputs[0].listingOk then 1 else 0) + Raising(inputs[1..][..used - 1])
  {
    assert inputs[..used][1..] == inputs[1..][..used - 1];
  }

  /** What the stopped loop's run over calm surroundings comes to, when `n` cycles with the node up are enough. */
  ghost predicate Drains(r: (Pipeline, Ended, nat), inputs: seq<Input>, exceptions: nat, n: int) {
    && r.1 != StillRunning
    && r.2 <= |inputs| && Ups(inputs[..r.2]) <= n
    && (exceptions + Raising(inputs[..r.2]) < MAX_EXCEPTIONS ==> r.1 == Exited)
  }

  lemma {:induction false} DrainsFrom(p: Pipeline, inputs: seq<Input>, exceptions: nat, j: nat)
    requires Inv(p) && Calm(inputs, p.found) && TriedAtLeast(p, j) && j <= RETRY_LIMIT + 1
    requires exceptions < MAX_EXCEPTIONS && Ups(inputs) >= RETRY_LIMIT + 1 - j
    ensures Drains(Run(p, inputs, 0, exceptions), inputs, exceptions, RETRY_LIMIT + 1 - j)
    decreases |inputs|
  {
    hide Inv, Cycle, Count, Run, Quiet;
    if p.inProgress == [] {
      NothingToDrain(p, inputs, exceptions);
    } else {
      assert p.inProgress[0] in p.inProgress;
      RunStep(p, inputs, exceptions);
      UsedStep(inputs, 1);
      if inputs[0].Down? {
        DownCycle(p, inputs[0]);
        DrainsFrom(p, inputs[1..], 0, j);
        UsedStep(inputs, Run(p, inputs, 0, exceptions).2);
      } else {
        QuietCycle(p, inputs[0]);
        var (p', raised) := Cycle(p, inputs[0]);
        TriedOnceMore(p, p', j);
        if !(raised && exceptions + 1 == MAX_EXCEPTIONS) {
          DrainsFrom(p', inputs[1..], if raised then exceptions + 1 else 0, j + 1);
          UsedStep(inputs, Run(p, inputs, 0, exceptions).2);
        }
      }
    }
  }

  lemma NothingToDrain(p: Pipeline, inputs: seq<Input>, exceptions: nat)
    requires p.inProgress == []
    ensures Run(p, inputs, 0, exceptions) == (p, Exited, 0)
  {
  }

  lemma DownCycle(p: Pipeline, input: Input)
    requires input.Down?
    ensures Cycle(p, input) == (p, false)
  {
  }

  lemma TriedOnceMore(p: Pipeline, p': Pipeline, j: nat)
    requires TriedAtLeast(p, j) && Inv(p')
    requires forall c :: c in p'.inProgress ==> c in p.inProgress && Count(p'.retries, c) == Count(p.retries, c) + 1
    ensures TriedAtLeast(p', j + 1)
  {
    hide ListsOk, BooksOk, Count;
  }

  /**
   Once stopped, the loop is over by the fourth cycle that finds the node up, however many find
   it down, whatever fails to upload and however many cycles had raised before. It ends normally
   unless the listings raise often enough for ten exceptions.
   */
  lemma DrainsAfterStop(p: Pipeline, inputs: seq<Input>, exceptions: nat)
    requires Inv(p) && Calm(inputs, p.found) && exceptions < MAX_EXCEPTIONS
    requires Ups(inputs) >= RETRY_LIMIT + 1
    ensures var (_, ended, used) := Run(p, inputs, 0, exceptions);
      && ended != StillRunning
      && used <= |inputs| && Ups(inputs[..used]) <= RETRY_LIMIT + 1
      && (exceptions + Raising(inputs[..used]) < MAX_EXCEPTIONS ==> ended == Exited)
  {
    hide Run, Calm;
    LimitsOfInv(p);
    DrainsFrom(p, inputs, exceptions, 0);
  }

  lemma LimitsOfInv(p: Pipeline)
    requires Inv(p)
    ensures TriedAtLeast(p, 0)
  {
    hide ListsOk, BooksOk, Count;
  }

  lemma {:induction false} AllUp(inputs: seq<Input>)
    requires forall i :: 0 <= i < |inputs| ==> inputs[i].Up?
    ensures Ups(inputs) == |inputs|
  {
    if inputs != [] {
      AllUp(inputs[1..]);
    }
  }

  /** With the node up throughout that is four cycles, and the end is normal if fewer than six had raised before. */
  lemma DrainsWithinFourCycles(p: Pipeline, inputs: seq<Input>, exceptions: nat)
    requires Inv(p) && exceptions < MAX_EXCEPTIONS && |inputs| >= RETRY_LIMIT + 1
    requires forall i :: 0 <= i < |inputs| ==> Quiet(inputs[i], p.found)
    ensures var (_, ended, used) := Run(p, inputs, 0, exceptions);
      && ended != StillRunning && used <= RETRY_LIMIT + 1
      && (exceptions + RETRY_LIMIT + 1 < MAX_EXCEPTIONS ==> ended == Exited)
  {
    hide Run, Inv;
    AllUp(inputs);
    DrainsAfterStop(p, inputs, exceptions);
    AllUp(inputs[..Run(p, inputs, 0, exceptions).2]);
  }

  /** A node that stays down keeps the stopped thread alive as long as something is in progress. */
  lemma {:induction false} NeverDrainsWhileDown(p: Pipeline, inputs: seq<Input>, exceptions: nat)
    requires p.inProgress != [] && Ups(inputs) == 0
    ensures Run(p, inputs, 0, exceptions) == (p, StillRunning, |inputs|)
    decreases |inputs|
  {
    if inputs != [] {
      NeverDrainsWhileDown(p, inputs[1..], 0);
    }
  }

  // ---- Four cycles can be needed

  /** Every try made in the cycle raises; the listing does not. */
  ghost predicate Failing(input: Input) {
    input.Up? ==> input.listingOk && forall c :: input.tries(c).InfoRaises? || input.tries(c).UploadRaises?
  }

  ghost predicate AllFailing(inputs: seq<Input>) {
    forall i :: 0 <= i < |inputs| ==> Failing(inputs[i])
  }

  lemma FailingRound(p: Pipeline, c: Pid, t: Try)
    requires t.InfoRaises? || t.UploadRaises?
    ensures ProcessOne(p, c, t).uploaded == p.uploaded && ProcessOne(p, c, t).maxUploads == p.maxUploads
  {
  }

  /** A core that has retries left stays in progress when its try raises. */
  lemma {:induction false} StaysInProgress(p: Pipeline, todo: seq<Pid>, tries: Pid -> Try, c: Pid)
    requires ListsOk(p) && NoRepeats(todo) && AllIn(todo, p.inProgress) && !LimitReached(p) && c in p.inProgress
    requires c in todo ==> Count(p.retries, c) < RETRY_LIMIT
    requires forall x :: tries(x).InfoRaises? || tries(x).UploadRaises?
    ensures var p' := ProcessAll(p, todo, tries); c in p'.inProgress && !LimitReached(p')
    decreases |todo|
  {
    hide ListsOk, ProcessOne, Count;
    if todo != [] {
      var x := todo[0];
      var p1 := ProcessOne(p, x, tries(x));
      ListsOkParts(p);
      ProcessOneLists(p, x, tries(x));
      ProcessOneFrame(p, x, tries(x));
      RoundOutcome(p, x, tries(x));
      FailingRound(p, x, tries(x));
      assert todo == [x] + todo[1..] && x !in todo[1..];
      StaysInProgress(p1, todo[1..], tries, c);
    }
  }

  lemma FailingCycle(p: Pipeline, input: Input, c: Pid)
    requires Inv(p) && Quiet(input, p.found) && Failing(input)
    requires c in p.inProgress && !LimitReached(p) && Count(p.retries, c) < RETRY_LIMIT
    ensures var p' := Cycle(p, input).0;
      c in p'.inProgress && !LimitReached(p') && Count(p'.retries, c) == Count(p.retries, c) + 1
  {
    hide ListsOk, LimitsOk, BooksOk, ProcessAll, Extract, NoRepeats, Count;
    QuietCycle(p, input);
    ListsOkParts(p);
    ProcessAllKeepsFound(p, p.inProgress, input.tries);
    StaysInProgress(p, p.inProgress, input.tries, c);
    NothingToExtract(input.listing, p.found);
  }

  lemma {:induction false} KeepsRetrying(p: Pipeline, inputs: seq<Input>, exceptions: nat, c: Pid)
    requires Inv(p) && Calm(inputs, p.found) && AllFailing(inputs) && c in p.inProgress && !LimitReached(p)
    requires Count(p.retries, c) + Ups(inputs) <= RETRY_LIMIT
    ensures Run(p, inputs, 0, exceptions).1 == StillRunning
    decreases |inputs|
  {
    hide Inv, Cycle, Count, Run, Quiet, Failing, LimitReached;
    if inputs == [] {
      OutOfInputs(p, exceptions);
    } else {
      RunStep(p, inputs, exceptions);
      if inputs[0].Down? {
        DownCycle(p, inputs[0]);
        KeepsRetrying(p, inputs[1..], 0, c);
      } else {
        assert Failing(inputs[0]) && Quiet(inputs[0], p.found);
        FailingCycle(p, inputs[0], c);
        QuietCycle(p, inputs[0]);
        ListingDidNotRaise(inputs[0]);
        KeepsRetrying(Cycle(p, inputs[0]).0, inputs[1..], 0, c);
      }
    }
  }

  lemma ListingDidNotRaise(input: Input)
    requires Failing(input) && input.Up?
    ensures input.listingOk
  {
  }

  lemma OutOfInputs(p: Pipeline, exceptions: nat)
    requires p.inProgress != []
    ensures Run(p, [], 0, exceptions) == (p, StillRunning, 0)
  {
  }

  /** No fewer cycles do: while uploads raise, a core not tried yet keeps the loop alive exactly until the fourth. */
  lemma FourCyclesAreNeeded(p: Pipeline, inputs: seq<Input>, exceptions: nat, c: Pid)
    requires Inv(p) && Calm(inputs, p.found) && AllFailing(inputs) && exceptions < MAX_EXCEPTIONS
    requires c in p.inProgress && Count(p.retries, c) == 0 && !LimitReached(p)
    ensures Run(p, inputs, 0, exceptions).1 == StillRunning <==> Ups(inputs) <= RETRY_LIMIT
  {
    hide Inv, Run, Calm, AllFailing, LimitReached;
    if Ups(inputs) <= RETRY_LIMIT {
      KeepsRetrying(p, inputs, exceptions, c);
    } else {
      DrainsAfterStop(p, inputs, exceptions);
    }
  }

  // ---- The measure behind the drain

  /** The cycles a core can still spend in progress. */
  function Left(retries: map<Pid, nat>, c: Pid): (n: nat) {
    if Count(retries, c) <= RETRY_LIMIT then RETRY_LIMIT + 1 - Count(retries, c) else 0
  }

  function Remaining(s: seq<Pid>, retries: map<Pid, nat>): (n: nat) {
    if s == [] then 0 else Left(retries, s[0]) + Remaining(s[1..], retries)
  }

  lemma {:induction false} RemainingWithout(s: seq<Pid>, c: Pid, retries: map<Pid, nat>)
    requires c in s
    ensures Remaining(s, retries) == Left(retries, c) + Remaining(Remove(s, c), retries)
  {
    if s[0] != c {
      RemainingWithout(s[1..], c, retries);
      assert Remove(s, c)[1..] == Remove(s[1..], c);
    }
  }

  lemma {:induction false} RemainingOfPart(s: seq<Pid>, t: seq<Pid>, retries: map<Pid, nat>)
    requires NoRepeats(s) && NoRepeats(t) && AllIn(s, t)
    ensures Remaining(s, retries) <= Remaining(t, retries)
    decreases |s|
  {
    if s != [] {
      assert s == [s[0]] + s[1..] && s[0] !in s[1..] && s[0] in t;
      RemainingWithout(t, s[0], retries);
      RemoveKeeps(t, s[0]);
      RemainingOfPart(s[1..], Remove(t, s[0]), retries);
    }
  }

  lemma {:induction false} RemainingDrops(s: seq<Pid>, before: map<Pid, nat>, after: map<Pid, nat>)
    requires forall c :: c in s ==> Count(after, c) == Count(before, c) + 1 <= RETRY_LIMIT
    ensures Remaining(s, after) + |s| == Remaining(s, before)
  {
    if s != [] {
      assert s == [s[0]] + s[1..];
      RemainingDrops(s[1..], before, after);
    }
  }

  /** Every quiet cycle lowers the retries left over all cores in progress, until there are none. */
  lemma QuietCycleLowersRemaining(p: Pipeline, input: Input)
    requires Inv(p) && Quiet(input, p.found) && p.inProgress != []
    ensures var p' := Cycle(p, input).0; Remaining(p'.inProgress, p'.retries) < Remaining(p.inProgress, p.retries)
  {
    hide ListsOk, BooksOk, NoRepeats, Cycle, Remaining, Count;
    var p' := Cycle(p, input).0;
    QuietCycle(p, input);
    ListsOkParts(p);
    ListsOkParts(p');
    RemainingDrops(p'.inProgress, p.retries, p'.retries);
    RemainingOfPart(p'.inProgress, p.inProgress, p.retries);
    if p'.inProgress == [] {
      SomethingRemains(p);
    }
  }

  lemma SomethingRemains(p: Pipeline)
    requires LimitsOk(p) && p.inProgress != []
    ensures Remaining(p.inProgress, p.retries) > 0 == Remaining([], p.retries)
  {
    assert p.inProgress[0] in p.inProgress;
  }

  // ---- The thread object

  class CoredumpThread {
    const maxUploads: int
    var found: seq<Pid>
    var inProgress: seq<Pid>
    var completed: seq<Pid>
    var uploaded: seq<Pid>
    var retries: map<Pid, nat>
    var attempts: map<Pid, nat>
    var publishes: nat
    var lost: nat

    constructor (maxUploads: int)
      ensures View() == Fresh(maxUploads)
    {
      this.maxUploads := maxUploads;
      found, inProgress, completed, uploaded := [], [], [], [];
      retries, attempts, publishes, lost := map[], map[], 0, 0;
    }

    function View(): (p: Pipeline)
      reads this
    {
      Pipeline(maxUploads, found, inProgress, completed, uploaded, retries, attempts, publishes, lost)
    }

    /** `_process_coredumps`: go over a copy of the cores in progress. */
    method ProcessCoredumps(tries: Pid -> Try)
      modifies this
      ensures View() == ProcessAll(old(View()), old(inProgress), tries)
    {
      var todo := inProgress;
      for i := 0 to |todo|
        invariant ProcessAll(old(View()), todo, tries) == ProcessAll(View(), todo[i..], tries)
      {
        assert todo[i..][1..] == todo[i + 1..];
        ProcessCore(todo[i], tries(todo[i]));
      }
    }

    method ProcessCore(c: Pid, t: Try)
      modifies this
      ensures View() == ProcessOne(old(View()), c, t)
    {
      hide Remove, Count;
      if |uploaded| >= maxUploads {
        inProgress := Remove(inProgress, c);
        return;
      }
      retries := retries[c := Count(retries, c) + 1];
      if RETRY_LIMIT < retries[c] {
        inProgress, completed := Remove(inProgress, c), completed + [c];
        return;
      }
      if t.InfoRaises? {
        return;
      }
      attempts := attempts[c := Count(attempts, c) + 1];
      if t.UploadRaises? {
        return;
      }
      completed, inProgress := completed + [c], Remove(inProgress, c);
      if t.Uploaded? {
        uploaded, publishes := uploaded + [c], publishes + 1;
      }
    }

    /** `extract_info_from_core_pids`: publish every new core; `ok` is false when a lookup raised. */
    method ExtractInfo(listing: seq<Listed>) returns (news: seq<Listed>, ok: bool)
      modifies this`publishes
      ensures news == Extract(listing, found).0 && ok == Extract(listing, found).1
      ensures publishes == old(publishes) + |news|
    {
      news, ok := [], true;
      for i := 0 to |listing|
        invariant ok && publishes == old(publishes) + |news|
        invariant Extract(listing, found).0 == news + Extract(listing[i..], found).0
        invariant Extract(listing, found).1 == Extract(listing[i..], found).1
      {
        assert listing[i..][1..] == listing[i + 1..];
        if listing[i].pid !in found {
          if !listing[i].lookupOk {
            ok := false;
            assert Extract(listing, found).0 == news;
            return;
          }
          publishes := publishes + 1;
          news := news + [listing[i]];
        }
      }
      assert listing[|listing|..] == [] && news + [] == news;
    }

    method PushNewCores(news: seq<Listed>)
      modifies this`found, this`inProgress
      ensures View() == Push(old(View()), news)
    {
      found := found + Pids(news);
      for i := 0 to |news|
        invariant found == old(found) + Pids(news)
        invariant if |uploaded| >= maxUploads then inProgress == old(inProgress)
                  else old(inProgress) + Queue(news) == inProgress + Queue(news[i..])
      {
        assert news[i..][1..] == news[i + 1..];
        if !news[i].bash && |uploaded| < maxUploads {
          inProgress := inProgress + [news[i].pid];
        }
      }
      assert news[|news|..] == [] && inProgress + [] == inProgress;
    }

    /** `main_cycle_body` */
    method MainCycle(input: Input) returns (raised: bool)
      modifies this
      ensures View() == Cycle(old(View()), input).0 && raised == Cycle(old(View()), input).1
    {
      if input.Down? {
        return false;
      }
      ProcessCoredumps(input.tries);
      if !input.listingOk {
        return true;
      }
      var news, ok := ExtractInfo(input.listing);
      if !ok {
        lost := lost + |news|;
        return true;
      }
      PushNewCores(news);
      raised := false;
    }

    /** `run`, over the surroundings of its cycles. */
    method RunThread(inputs: seq<Input>, beforeStop: nat) returns (ended: Ended, used: nat)
      modifies this
      ensures (View(), ended, used) == Run(old(View()), inputs, beforeStop, 0)
    {
      var exceptions, left := 0, beforeStop;
      used := 0;
      while left != 0 || inProgress != []
        invariant used <= |inputs| && exceptions < MAX_EXCEPTIONS
        invariant var rest := Run(View(), inputs[used..], left, exceptions);
          Run(old(View()), inputs, beforeStop, 0) == (rest.0, rest.1, rest.2 + used)
        decreases |inputs| - used
      {
        if used == |inputs| {
          return StillRunning, used;
        }
        assert inputs[used..][1..] == inputs[used + 1..];
        var raised := MainCycle(inputs[used]);
        used := used + 1;
        exceptions := if raised then exceptions + 1 else 0;
        if exceptions == MAX_EXCEPTIONS {
          return Crashed, used;
        }
        left := if left == 0 then 0 else left - 1;
      }
      ended := Exited;
    }
  }
}
