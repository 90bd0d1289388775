/**
 `AWSCluster.add_nodes` with mixed provisioning: spot instances, requested in chunks, next
 to a fixed number of on-demand ones, unless instances for the rack are found provisioned
 already. Every request is taken to be granted.
 */
module AwsCluster {
  import opened Text
  import opened Racks

  const SPOT_CNT_LIMIT: nat := 20
  const SPOT_FLEET_LIMIT: nat := 50
  const MAX_ON_DEMAND: nat := 2

  // ---- Spot requests

  /** The requests of `_create_spot_instances`: as few as possible, none over the limit, adding up to the count. */
  method SpotRequests(count: nat, fleet: bool) returns (requests: seq<nat>)
    ensures var limit := if fleet then 50 else 20;
      && Sum(requests) == count
      && (forall i :: 0 <= i < |requests| ==> requests[i] <= limit)
      && (count >= 1 ==> forall i :: 0 <= i < |requests| ==> 1 <= requests[i])
      && (count >= 1 ==> (|requests| - 1) * limit < count <= |requests| * limit)
  {
    var limit := if fleet then SPOT_FLEET_LIMIT else SPOT_CNT_LIMIT;
    var requestCnt, tailCnt, size := 1, 0, count;
    if count > limit {
      requestCnt, size, tailCnt := count / limit, limit, count % limit;
      if tailCnt != 0 {
        requestCnt := requestCnt + 1;
      }
    }
    requests := [];
    for i := 0 to requestCnt
      invariant |requests| == i
      invariant forall j :: 0 <= j < i ==> requests[j] <= limit && (count >= 1 ==> 1 <= requests[j])
      invariant Sum(requests) == if i == requestCnt then count else i * size
      invariant i < requestCnt ==> size == if count > limit then limit else count
    {
      if tailCnt != 0 && i == requestCnt - 1 {
        size := tailCnt;
      }
      assert (requests + [size])[..i] == requests;
      requests := requests + [size];
    }
  }

  // ---- Mixed provisioning

  datatype AwsNode = AwsNode(index: nat, rack: nat, spot: bool)

  function OnDemand(spots: seq<bool>): (n: nat)
    ensures n <= |spots|
  {
    if spots == [] then 0 else OnDemand(spots[..|spots| - 1]) + if spots[|spots| - 1] then 0 else 1
  }

  function Spots(nodes: seq<AwsNode>): (s: seq<bool>)
    ensures |s| == |nodes| && forall i :: 0 <= i < |nodes| ==> s[i] == nodes[i].spot
  {
    seq(|nodes|, i requires 0 <= i < |nodes| => nodes[i].spot)
  }

  /** How many of `count` new instances `_create_mixed_instances` makes on-demand ones. */
  function OnDemandShare(count: nat, existing: seq<bool>): (n: nat) {
    if existing == [] then (if count > 2 then MAX_ON_DEMAND else if count == 2 then 1 else 0)
    else if OnDemand(existing) < MAX_ON_DEMAND then MAX_ON_DEMAND - OnDemand(existing)
    else 0
  }

  /** The new instances, spot ones first; `true` is a spot instance. */
  function MixedInstances(count: nat, existing: seq<bool>): (r: seq<bool>) {
    var od := OnDemandShare(count, existing);
    seq(if count > od then count - od else 0, _ => true) + seq(od, _ => false)
  }

  /** How many instances each rack is asked for. */
  function Shares(count: nat, rack: Option<nat>, racks: nat): (d: seq<nat>)
    requires racks > 0
    ensures |d| == racks
  {
    if rack.None? then Distribution(count, racks) else seq(racks, i => if i == rack.value then count else 0)
  }

  /** The instances of all racks; each rack sees the cluster as it was before the call. */
  function Provisioned(shares: seq<nat>, existing: seq<bool>): (r: seq<bool>) {
    if shares == [] then []
    else
      var n := |shares| - 1;
      Provisioned(shares[..n], existing) + if shares[n] == 0 then [] else MixedInstances(shares[n], existing)
  }

  /** A rack that has a node already gets new instances, whatever else is found there. */
  predicate InUse(nodes: seq<AwsNode>, rack: nat) {
    exists i :: 0 <= i < |nodes| && nodes[i].rack == rack
  }

  /** `_create_or_find_instances` for one rack; `found` is what `_get_instances` lists there. */
  function RackInstances(count: nat, rack: nat, nodes: seq<AwsNode>, found: seq<bool>): (r: seq<bool>) {
    if InUse(nodes, rack) || found == [] then MixedInstances(count, Spots(nodes)) else found
  }

  /** An add to an existing rack, for which instances are created. */
  predicate Creates(rack: Option<nat>, racks: nat, nodes: seq<AwsNode>, found: nat -> seq<bool>) {
    rack.Some? && rack.value < racks && (InUse(nodes, rack.value) || found(rack.value) == [])
  }

  /** The instances of all racks, found or created. */
  function Acquired(shares: seq<nat>, nodes: seq<AwsNode>, found: nat -> seq<bool>): (r: seq<bool>) {
    if shares == [] then []
    else
      var n := |shares| - 1;
      Acquired(shares[..n], nodes, found) + if shares[n] == 0 then [] else RackInstances(shares[n], n, nodes, found(n))
  }

  /** No rack that is asked for instances has any but those of its own nodes. */
  ghost predicate NothingFound(shares: seq<nat>, nodes: seq<AwsNode>, found: nat -> seq<bool>) {
    forall r :: 0 <= r < |shares| && shares[r] > 0 ==> InUse(nodes, r) || found(r) == []
  }

  lemma {:induction false} NothingFoundMeansProvisioned(shares: seq<nat>, nodes: seq<AwsNode>, found: nat -> seq<bool>)
    requires NothingFound(shares, nodes, found)
    ensures Acquired(shares, nodes, found) == Provisioned(shares, Spots(nodes))
  {
    hide InUse, MixedInstances;
    if shares != [] {
      var n := |shares| - 1;
      assert NothingFound(shares[..n], nodes, found);
      NothingFoundMeansProvisioned(shares[..n], nodes, found);
    }
  }

  /** The instances of a rack stand after those of the racks before it. */
  lemma {:induction false} AcquiredInOrder(shares: seq<nat>, r: nat, nodes: seq<AwsNode>, found: nat -> seq<bool>)
    requires r < |shares|
    ensures Acquired(shares[..r], nodes, found) <= Acquired(shares, nodes, found)
    ensures shares[r] > 0 ==>
      Acquired(shares[..r], nodes, found) + RackInstances(shares[r], r, nodes, found(r))
        <= Acquired(shares, nodes, found)
    decreases |shares|
  {
    hide RackInstances;
    var n := |shares| - 1;
    if r < n {
      assert shares[..n][..r] == shares[..r];
      AcquiredInOrder(shares[..n], r, nodes, found);
    }
  }

  lemma {:induction false} NothingAcquired(shares: seq<nat>, nodes: seq<AwsNode>, found: nat -> seq<bool>)
    requires forall i :: 0 <= i < |shares| ==> shares[i] == 0
    ensures Acquired(shares, nodes, found) == []
  {
    if shares != [] {
      NothingAcquired(shares[..|shares| - 1], nodes, found);
    }
  }

  lemma {:induction false} OneRackAcquired(shares: seq<nat>, rack: nat, nodes: seq<AwsNode>, found: nat -> seq<bool>)
    requires rack < |shares| && shares[rack] > 0 && forall i :: 0 <= i < |shares| && i != rack ==> shares[i] == 0
    ensures Acquired(shares, nodes, found) == RackInstances(shares[rack], rack, nodes, found(rack))
  {
    hide RackInstances;
    var n := |shares| - 1;
    if rack == n {
      NothingAcquired(shares[..n], nodes, found);
    } else {
      OneRackAcquired(shares[..n], rack, nodes, found);
    }
  }

  /** Instances found on a named rack without nodes are all taken, however many were asked for. */
  lemma FoundAreTaken(count: nat, rack: nat, racks: nat, nodes: seq<AwsNode>, found: nat -> seq<bool>)
    requires 0 < count && rack < racks && !InUse(nodes, rack) && found(rack) != []
    ensures Acquired(Shares(count, Some(rack), racks), nodes, found) == found(rack)
  {
    OneRackAcquired(Shares(count, Some(rack), racks), rack, nodes, found);
  }

  function NewNodes(instances: seq<bool>, lastIndex: nat, rack: Option<nat>, racks: nat): (ns: seq<AwsNode>)
    requires racks > 0
    ensures |ns| == |instances| && Spots(ns) == instances
  {
    seq(|instances|, i requires 0 <= i < |instances| =>
      AwsNode(lastIndex + i + 1, if rack.None? then i % racks else rack.value, instances[i]))
  }

  /** The number asked for, or what is missing of the on-demand nodes if that is more. */
  function AddedNodes(count: nat, existing: seq<bool>): (n: nat) {
    if existing != [] && count + OnDemand(existing) < MAX_ON_DEMAND then MAX_ON_DEMAND - OnDemand(existing) else count
  }

  class Cluster {
    const racksCount: nat
    var nodes: seq<AwsNode>
    var nodeIndex: nat

    ghost predicate Valid()
      reads this
    {
      racksCount > 0 && Numbered(nodes, nodeIndex)
    }

    constructor (racksCount: nat)
      requires racksCount > 0
      ensures Valid() && nodes == [] && this.racksCount == racksCount
    {
      this.racksCount := racksCount;
      nodes, nodeIndex := [], 0;
    }

    /** `add_nodes`; the result is `self.nodes[-count:]`. */
    method AddNodes(count: nat, rack: Option<nat>, found: nat -> seq<bool>) returns (added: seq<AwsNode>)
      requires Valid()
      modifies this
      ensures Valid()
      ensures nodes == old(nodes) + if count == 0 then []
        else NewNodes(Acquired(Shares(count, rack, racksCount), old(nodes), found), old(nodeIndex), rack, racksCount)
      ensures 0 < count && rack.Some? && rack.value < racksCount ==>
        NamedAddOk(count, rack, racksCount, old(nodes), nodes, found)
      // new nodes are numbered on, and labelled with the named rack or with the racks in turn
      ensures NumberedOn(old(nodes), nodes, old(nodeIndex), rack, racksCount)
      ensures nodeIndex - old(nodeIndex) == |nodes| - |old(nodes)|
      ensures |added| == if count <= |nodes| then count else |nodes|
      ensures added == nodes[|nodes| - |added|..]
    {
      hide Acquired, NewNodes, Numbered, OnDemand, AddedNodes, Spots, Shares, InUse, NamedAddOk, NumberedOn;
      if count == 0 {
        NewNodesAre(nodes, [], nodeIndex, rack, racksCount);
        assert nodes + NewNodes([], nodeIndex, rack, racksCount) == nodes;
        return [];
      }
      var instances := CreateOrFindInstances(Shares(count, rack, racksCount), found);
      AppendNodes(instances, rack);
      NewNodesAre(old(nodes), instances, old(nodeIndex), rack, racksCount);
      if rack.Some? && rack.value < racksCount {
        NamedAddNodes(count, rack, racksCount, old(nodes), old(nodeIndex), found);
      }
      added := if count <= |nodes| then nodes[|nodes| - count..] else nodes;
    }

    method CreateOrFindInstances(shares: seq<nat>, found: nat -> seq<bool>) returns (instances: seq<bool>)
      ensures instances == Acquired(shares, nodes, found)
      ensures NothingFound(shares, nodes, found) ==> instances == Provisioned(shares, Spots(nodes))
    {
      instances := [];
      for r := 0 to |shares|
        invariant instances == Acquired(shares[..r], nodes, found)
      {
        assert shares[..r + 1][..r] == shares[..r];
        if shares[r] != 0 {
          instances := instances + RackInstances(shares[r], r, nodes, found(r));
        }
      }
      assert shares[..|shares|] == shares;
      if NothingFound(shares, nodes, found) {
        NothingFoundMeansProvisioned(shares, nodes, found);
      }
    }

    method AppendNodes(instances: seq<bool>, rack: Option<nat>)
      requires Valid()
      modifies this
      ensures Valid() && nodes == old(nodes) + NewNodes(instances, old(nodeIndex), rack, racksCount)
      ensures nodeIndex == old(nodeIndex) + |instances|
    {
      ghost var news := NewNodes(instances, nodeIndex, rack, racksCount);
      for i := 0 to |instances|
        invariant nodeIndex == old(nodeIndex) + i && nodes == old(nodes) + news[..i]
        invariant Numbered(nodes, nodeIndex)
      {
        nodeIndex := nodeIndex + 1;
        var nodeRack := if rack.None? then i % racksCount else rack.value;
        assert news[..i + 1] == news[..i] + [AwsNode(nodeIndex, nodeRack, instances[i])];
        nodes := nodes + [AwsNode(nodeIndex, nodeRack, instances[i])];
      }
    }

    /** `terminate_node`: the node leaves the list if it is in it; the others stay as they are. */
    method TerminateNode(node: AwsNode)
      requires Valid()
      modifies this`nodes
      ensures Valid() && node !in nodes
      ensures node !in old(nodes) ==> nodes == old(nodes)
      ensures node in old(nodes) ==>
        exists i :: 0 <= i < |old(nodes)| && old(nodes)[i] == node && nodes == old(nodes)[..i] + old(nodes)[i + 1..]
      ensures forall n :: n != node ==> (n in nodes <==> n in old(nodes))
      ensures OnDemand(Spots(nodes)) <= OnDemand(Spots(old(nodes)))
    {
      hide OnDemand, Spots, Numbered;
      var i := 0;
      while i < |nodes| && nodes[i] != node
        invariant i <= |nodes| && node !in nodes[..i]
      {
        i := i + 1;
      }
      if i < |nodes| {
        TerminateSpots(nodes, i);
        OneLess(nodes, nodeIndex, i);
        nodes := nodes[..i] + nodes[i + 1..];
      }
    }
  }

  /** The nodes added after `before` have the next indexes, and the named rack or the labels of the racks in turn. */
  ghost predicate NumberedOn(before: seq<AwsNode>, after: seq<AwsNode>, lastIndex: nat, rack: Option<nat>, racks: nat)
    requires racks > 0
  {
    && before <= after
    && forall i :: |before| <= i < |after| ==>
      && after[i].index == lastIndex + 1 + i - |before|
      && after[i].rack == if rack.Some? then rack.value else Labels(|after| - |before|, racks)[i - |before|]
  }

  lemma NewNodesAre(before: seq<AwsNode>, instances: seq<bool>, lastIndex: nat, rack: Option<nat>, racks: nat)
    requires racks > 0
    ensures NumberedOn(before, before + NewNodes(instances, lastIndex, rack, racks), lastIndex, rack, racks)
  {
  }

  /**
   What an add to an existing rack comes to: never more than two on-demand nodes, and in a non-empty cluster
   exactly two again, unless instances are found there, which are all taken whatever they are.
   */
  ghost predicate NamedAddOk(count: nat, rack: Option<nat>, racks: nat, before: seq<AwsNode>, after: seq<AwsNode>,
                             found: nat -> seq<bool>)
    requires rack.Some?
  {
    && before <= after
    && (Creates(rack, racks, before, found) && OnDemand(Spots(before)) <= MAX_ON_DEMAND ==>
          && OnDemand(Spots(after)) <= MAX_ON_DEMAND
          && (before != [] ==> OnDemand(Spots(after)) == MAX_ON_DEMAND)
          && |after| - |before| == AddedNodes(count, Spots(before)))
    && (!Creates(rack, racks, before, found) ==> Spots(after[|before|..]) == found(rack.value))
  }

  /** Node indexes are given out in order and never twice. */
  ghost predicate Numbered(nodes: seq<AwsNode>, lastIndex: nat) {
    && (forall i, j :: 0 <= i < j < |nodes| ==> nodes[i].index < nodes[j].index)
    && (forall i :: 0 <= i < |nodes| ==> nodes[i].index <= lastIndex)
  }

  // ---- How many on-demand nodes there are

  lemma {:induction false} OnDemandConcat(a: seq<bool>, b: seq<bool>)
    ensures OnDemand(a + b) == OnDemand(a) + OnDemand(b)
  {
    if b == [] {
      assert a + b == a;
    } else {
      assert (a + b)[..|a + b| - 1] == a + b[..|b| - 1];
      OnDemandConcat(a, b[..|b| - 1]);
    }
  }

  lemma {:induction false} OnDemandOfSame(n: nat, spot: bool)
    ensures OnDemand(seq(n, _ => spot)) == if spot then 0 else n
  {
    if n > 0 {
      assert seq(n, _ => spot)[..n - 1] == seq(n - 1, _ => spot);
      OnDemandOfSame(n - 1, spot);
    }
  }

  /** A rack's new instances: as many on-demand ones as its share, and never fewer instances than asked for. */
  lemma MixedCounts(count: nat, existing: seq<bool>)
    ensures OnDemand(MixedInstances(count, existing)) == OnDemandShare(count, existing)
    ensures |MixedInstances(count, existing)|
         == if count < OnDemandShare(count, existing) then OnDemandShare(count, existing) else count
    // the spot instances come first
    ensures var r := MixedInstances(count, existing);
      forall i :: 0 <= i < |r| ==> (r[i] <==> i < |r| - OnDemandShare(count, existing))
  {
    var od := OnDemandShare(count, existing);
    var spots := if count > od then count - od else 0;
    OnDemandConcat(seq(spots, _ => true), seq(od, _ => false));
    OnDemandOfSame(spots, true);
    OnDemandOfSame(od, false);
  }

  lemma {:induction false} NothingProvisioned(shares: seq<nat>, existing: seq<bool>)
    requires forall i :: 0 <= i < |shares| ==> shares[i] == 0
    ensures Provisioned(shares, existing) == []
  {
    if shares != [] {
      NothingProvisioned(shares[..|shares| - 1], existing);
    }
  }

  lemma {:induction false} OneRackProvisioned(shares: seq<nat>, rack: nat, existing: seq<bool>)
    requires rack < |shares| && shares[rack] > 0 && forall i :: 0 <= i < |shares| && i != rack ==> shares[i] == 0
    ensures Provisioned(shares, existing) == MixedInstances(shares[rack], existing)
  {
    var n := |shares| - 1;
    if rack == n {
      NothingProvisioned(shares[..n], existing);
    } else {
      OneRackProvisioned(shares[..n], rack, existing);
    }
  }

  /** What an add to a named rack brings: a non-empty cluster gets back exactly two on-demand nodes. */
  lemma NamedAdd(count: nat, rack: nat, racks: nat, existing: seq<bool>)
    requires 0 < count && rack < racks && OnDemand(existing) <= MAX_ON_DEMAND
    ensures var news := Provisioned(Shares(count, Some(rack), racks), existing);
      && OnDemand(existing + news) <= MAX_ON_DEMAND
      && (existing != [] ==> OnDemand(existing + news) == MAX_ON_DEMAND)
      && |news| == AddedNodes(count, existing)
  {
    hide Provisioned, MixedInstances, OnDemand;
    OneRackProvisioned(Shares(count, Some(rack), racks), rack, existing);
    MixedCounts(count, existing);
    OnDemandConcat(existing, Provisioned(Shares(count, Some(rack), racks), existing));
  }

  lemma NamedAddNodes(count: nat, rack: Option<nat>, racks: nat, before: seq<AwsNode>, lastIndex: nat,
                      found: nat -> seq<bool>)
    requires 0 < count && rack.Some? && rack.value < racks
    ensures var news := NewNodes(Acquired(Shares(count, rack, racks), before, found), lastIndex, rack, racks);
      NamedAddOk(count, rack, racks, before, before + news, found)
  {
    hide Provisioned, Acquired, OnDemand, AddedNodes, InUse;
    var shares := Shares(count, rack, racks);
    var news := NewNodes(Acquired(shares, before, found), lastIndex, rack, racks);
    assert (before + news)[|before|..] == news;
    if Creates(rack, racks, before, found) {
      NothingFoundMeansProvisioned(shares, before, found);
      if OnDemand(Spots(before)) <= MAX_ON_DEMAND {
        NamedAdd(count, rack.value, racks, Spots(before));
        assert Spots(before + news) == Spots(before) + Spots(news);
      }
    } else {
      FoundAreTaken(count, rack.value, racks, before, found);
    }
  }

  /** Naming a rack that does not exist adds nothing. */
  lemma UnknownRackAdd(count: nat, rack: nat, racks: nat, existing: seq<bool>)
    requires 0 < racks <= rack
    ensures Provisioned(Shares(count, Some(rack), racks), existing) == []
  {
    NothingProvisioned(Shares(count, Some(rack), racks), existing);
  }

  // ---- Runs of named adds and terminations

  datatype Op = Add(count: nat, rack: nat) | Terminate(i: nat)

  function Apply(existing: seq<bool>, op: Op, racks: nat): (r: seq<bool>)
    requires racks > 0
  {
    match op
    case Add(count, rack) =>
      if count == 0 then existing else existing + Provisioned(Shares(count, Some(rack), racks), existing)
    case Terminate(i) => if i < |existing| then existing[..i] + existing[i + 1..] else existing
  }

  function Exec(ops: seq<Op>, racks: nat): (r: seq<bool>)
    requires racks > 0
  {
    if ops == [] then [] else Apply(Exec(ops[..|ops| - 1], racks), ops[|ops| - 1], racks)
  }

  lemma {:induction false} TerminateLowers(existing: seq<bool>, i: nat)
    requires i < |existing|
    ensures OnDemand(existing[..i] + existing[i + 1..]) <= OnDemand(existing)
  {
    hide OnDemand;
    var a, x, b := existing[..i], [existing[i]], existing[i + 1..];
    assert existing == a + (x + b);
    OnDemandConcat(a, x + b);
    OnDemandConcat(x, b);
    OnDemandConcat(a, b);
  }

  lemma OneLess(nodes: seq<AwsNode>, lastIndex: nat, i: nat)
    requires Numbered(nodes, lastIndex) && i < |nodes|
    ensures var rest := nodes[..i] + nodes[i + 1..];
      Numbered(rest, lastIndex) && nodes[i] !in rest && forall n :: n != nodes[i] ==> (n in rest <==> n in nodes)
  {
    assert nodes == nodes[..i] + [nodes[i]] + nodes[i + 1..];
  }

  lemma TerminateSpots(nodes: seq<AwsNode>, i: nat)
    requires i < |nodes|
    ensures OnDemand(Spots(nodes[..i] + nodes[i + 1..])) <= OnDemand(Spots(nodes))
  {
    hide OnDemand;
    TerminateLowers(Spots(nodes), i);
    assert Spots(nodes[..i] + nodes[i + 1..]) == Spots(nodes)[..i] + Spots(nodes)[i + 1..];
  }

  /** In every run of adds to named racks and terminations there are never more than two on-demand nodes. */
  lemma {:induction false} NeverMoreThanTwo(ops: seq<Op>, racks: nat)
    requires racks > 0
    ensures OnDemand(Exec(ops, racks)) <= MAX_ON_DEMAND
  {
    hide OnDemand, Provisioned, Shares;
    if ops == [] {
      assert OnDemand([]) <= |Exec(ops, racks)|;
    } else {
      var before, op := Exec(ops[..|ops| - 1], racks), ops[|ops| - 1];
      NeverMoreThanTwo(ops[..|ops| - 1], racks);
      match op {
        case Add(count, rack) =>
          if count > 0 {
            if rack < racks {
              NamedAdd(count, rack, racks, before);
            } else {
              UnknownRackAdd(count, rack, racks, before);
              assert before + [] == before;
            }
          }
        case Terminate(i) =>
          if i < |before| {
            TerminateLowers(before, i);
          }
      }
    }
  }

  // ---- Adds that name no rack

  /** What the racks together are given, when each rack's share is computed on its own. */
  function OnDemandShares(shares: seq<nat>, existing: seq<bool>): (n: nat) {
    if shares == [] then 0
    else
      var n := |shares| - 1;
      OnDemandShares(shares[..n], existing) + if shares[n] == 0 then 0 else OnDemandShare(shares[n], existing)
  }

  lemma {:induction false} ProvisionedOnDemand(shares: seq<nat>, existing: seq<bool>)
    ensures OnDemand(Provisioned(shares, existing)) == OnDemandShares(shares, existing)
  {
    hide OnDemand, MixedInstances;
    if shares == [] {
      assert OnDemand([]) <= |Provisioned(shares, existing)|;
    } else {
      var n := |shares| - 1;
      ProvisionedOnDemand(shares[..n], existing);
      MixedCounts(shares[n], existing);
      var rest := Provisioned(shares[..n], existing);
      OnDemandConcat(rest, if shares[n] == 0 then [] else MixedInstances(shares[n], existing));
      assert rest + [] == rest;
    }
  }

  function RackShare(n: nat, existing: seq<bool>): (od: nat) {
    if n == 0 then 0 else OnDemandShare(n, existing)
  }

  /** What the first `k` racks are given: those with one node more, then the others. */
  function FirstRacks(k: nat, extra: nat, more: nat, less: nat): (n: nat) {
    if k <= extra then k * more else extra * more + (k - extra) * less
  }

  lemma FirstRacksStep(k: nat, extra: nat, more: nat, less: nat)
    requires k > 0
    ensures FirstRacks(k, extra, more, less) == FirstRacks(k - 1, extra, more, less) + if k <= extra then more else less
  {
    if k <= extra {
      assert k * more == (k - 1) * more + more;
    } else {
      assert (k - extra) * less == (k - 1 - extra) * less + less;
    }
  }

  lemma {:induction false} SharesUpTo(d: seq<nat>, base: nat, extra: nat, existing: seq<bool>, k: nat)
    requires k <= |d| && forall i :: 0 <= i < |d| ==> d[i] == if i < extra then base + 1 else base
    ensures OnDemandShares(d[..k], existing)
         == FirstRacks(k, extra, RackShare(base + 1, existing), RackShare(base, existing))
    decreases k
  {
    hide OnDemandShare, FirstRacks;
    if k == 0 {
      assert FirstRacks(0, extra, RackShare(base + 1, existing), RackShare(base, existing)) == 0 by {
        NoRacks(extra, RackShare(base + 1, existing), RackShare(base, existing));
      }
    } else {
      SharesUpTo(d, base, extra, existing, k - 1);
      assert d[..k][..k - 1] == d[..k - 1];
      FirstRacksStep(k, extra, RackShare(base + 1, existing), RackShare(base, existing));
    }
  }

  lemma NoRacks(extra: nat, more: nat, less: nat)
    ensures FirstRacks(0, extra, more, less) == 0
  {
  }

  /** The on-demand nodes an add without a rack creates. */
  lemma UnnamedTotal(count: nat, racks: nat, existing: seq<bool>)
    requires racks > 0
    ensures var (base, extra) := (count / racks, count % racks);
      OnDemand(existing + Provisioned(Shares(count, None, racks), existing))
        == OnDemand(existing) + extra * RackShare(base + 1, existing) + (racks - extra) * RackShare(base, existing)
  {
    hide OnDemand, OnDemandShare, Provisioned, RackShare;
    var d := Distribution(count, racks);
    assert d[..racks] == d;
    SharesUpTo(d, count / racks, count % racks, existing, racks);
    ProvisionedOnDemand(d, existing);
    OnDemandConcat(existing, Provisioned(d, existing));
  }

  lemma ClusterArithmetic(count: nat, racks: nat, base: nat, extra: nat, gap: nat)
    requires count == base * racks + extra && extra < racks && count > 0
    ensures extra * gap + (racks - extra) * (if base == 0 then 0 else gap) <= gap
       <==> gap == 0 || count == 1 || racks == 1
  {
    if base == 0 {
      ProductBound(extra, gap);
    } else {
      MulStep(0, base, racks);
      ProductBound(racks, gap);
      SumOfProducts(extra, racks - extra, gap);
      if racks == 1 {
        assert 1 * gap == gap;
      }
    }
  }

  lemma SumOfProducts(a: nat, b: nat, gap: nat)
    ensures a * gap + b * gap == (a + b) * gap
  {
  }

  /** `m * gap` does not exceed `gap` exactly when one of the factors is too small to matter. */
  lemma ProductBound(m: nat, gap: nat)
    ensures m * gap <= gap <==> m <= 1 || gap == 0
  {
    if m >= 2 {
      MulStep(1, m, gap);
    }
  }

  /** Naming no rack keeps the limit in a non-empty cluster exactly when nothing is missing or one rack is served. */
  lemma UnnamedAddToCluster(count: nat, racks: nat, existing: seq<bool>)
    requires racks > 0 && count > 0 && existing != [] && OnDemand(existing) <= MAX_ON_DEMAND
    ensures OnDemand(existing + Provisioned(Shares(count, None, racks), existing)) <= MAX_ON_DEMAND
       <==> OnDemand(existing) == MAX_ON_DEMAND || count == 1 || racks == 1
  {
    hide Provisioned, OnDemand, Shares;
    UnnamedTotal(count, racks, existing);
    var gap := MAX_ON_DEMAND - OnDemand(existing);
    var base, extra := count / racks, count % racks;
    assert RackShare(base + 1, existing) == gap && RackShare(base, existing) == if base == 0 then 0 else gap;
    ClusterArithmetic(count, racks, base, extra, gap);
  }

  lemma EmptyArithmetic(count: nat, racks: nat, base: nat, extra: nat)
    requires count == base * racks + extra && extra < racks && count > 0
    ensures extra * RackShare(base + 1, []) + (racks - extra) * RackShare(base, []) <= MAX_ON_DEMAND
       <==> racks == 1 || count <= racks + 2
  {
    if base == 0 {
      assert extra * 0 + (racks - extra) * 0 == 0;
    } else if base == 1 {
      assert extra * 1 + (racks - extra) * 0 == extra;
    } else if base == 2 {
      assert extra * 2 + (racks - extra) * 1 == racks + extra;
    } else {
      MulStep(2, base, racks);
      assert extra * 2 + (racks - extra) * 2 == 2 * racks;
    }
  }

  /** In an empty cluster: exactly when there is one rack, or at most two nodes more than racks. */
  lemma UnnamedAddToEmpty(count: nat, racks: nat)
    requires racks > 0 && count > 0
    ensures OnDemand(Provisioned(Shares(count, None, racks), [])) <= MAX_ON_DEMAND <==> racks == 1 || count <= racks + 2
  {
    hide Provisioned, Shares, RackShare;
    UnnamedTotal(count, racks, []);
    assert [] + Provisioned(Shares(count, None, racks), []) == Provisioned(Shares(count, None, racks), []);
    EmptyArithmetic(count, racks, count / racks, count % racks);
  }

  /** An add to a named rack creates more nodes than asked for exactly when more on-demand ones are missing. */
  lemma MoreThanAskedIff(count: nat, rack: nat, racks: nat, existing: seq<bool>)
    requires 0 < count && rack < racks
    ensures |Provisioned(Shares(count, Some(rack), racks), existing)| > count
       <==> existing != [] && count + OnDemand(existing) < MAX_ON_DEMAND
  {
    hide Provisioned, MixedInstances, OnDemand;
    OneRackProvisioned(Shares(count, Some(rack), racks), rack, existing);
    MixedCounts(count, existing);
  }

  /** Two nodes added to one spot node without naming one of two racks: each rack makes up for both missing nodes. */
  lemma FourOnDemandNodes()
    ensures OnDemand([true] + Provisioned(Shares(2, None, 2), [true])) == 4 > MAX_ON_DEMAND
  {
    hide Provisioned, Shares;
    OnDemandOfSame(1, true);
    assert seq(1, _ => true) == [true];
    DivModUnique(2, 2, 1, 0);
    UnnamedTotal(2, 2, [true]);
  }
}
