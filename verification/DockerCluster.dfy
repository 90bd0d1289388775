/**
 `DockerCluster._get_new_node_indexes` and `_create_nodes`: containers are numbered, and
 the numbers of removed containers are given out again.
 */
module DockerCluster {

  /** `sorted(set(range(n)) - set(used))` */
  function FreeBelow(used: seq<nat>, n: nat): (r: seq<nat>) {
    if n == 0 then [] else FreeBelow(used, n - 1) + if n - 1 in used then [] else [n - 1]
  }

  function NewIndexes(used: seq<nat>, count: nat): (r: seq<nat>) {
    FreeBelow(used, |used| + count)
  }

  predicate Distinct(s: seq<nat>) {
    forall i, j :: 0 <= i < j < |s| ==> s[i] != s[j]
  }

  predicate Ascending(s: seq<nat>) {
    forall i, j :: 0 <= i < j < |s| ==> s[i] < s[j]
  }

  /** The free indexes below `n`, all of them and in order. */
  lemma {:induction false} FreeBelowIs(used: seq<nat>, n: nat)
    ensures Ascending(FreeBelow(used, n))
    ensures forall i: nat :: i in FreeBelow(used, n) <==> i < n && i !in used
  {
    if n > 0 {
      FreeBelowIs(used, n - 1);
      var before := FreeBelow(used, n - 1);
      assert forall k :: 0 <= k < |before| ==> before[k] in before;
    }
  }

  function CountBelow(used: seq<nat>, n: nat): (k: nat)
    ensures k <= |used|
  {
    if used == [] then 0 else CountBelow(used[1..], n) + if used[0] < n then 1 else 0
  }

  lemma {:induction false} CountNext(used: seq<nat>, n: nat)
    requires Distinct(used)
    ensures CountBelow(used, n + 1) == CountBelow(used, n) + if n in used then 1 else 0
  {
    if used != [] {
      assert used == [used[0]] + used[1..];
      assert used[0] !in used[1..];
      CountNext(used[1..], n);
    }
  }

  lemma {:induction false} FreeAndUsed(used: seq<nat>, n: nat)
    requires Distinct(used)
    ensures |FreeBelow(used, n)| + CountBelow(used, n) == n
  {
    if n == 0 {
      NoneBelowZero(used);
    } else {
      FreeAndUsed(used, n - 1);
      CountNext(used, n - 1);
    }
  }

  lemma {:induction false} NoneBelowZero(used: seq<nat>)
    ensures CountBelow(used, 0) == 0
  {
    if used != [] {
      NoneBelowZero(used[1..]);
    }
  }

  lemma {:induction false} AllBelow(used: seq<nat>, n: nat)
    ensures CountBelow(used, n) == |used| <==> forall i :: 0 <= i < |used| ==> used[i] < n
  {
    if used != [] {
      AllBelow(used[1..], n);
      assert used == [used[0]] + used[1..];
    }
  }

  /**
   What an add gives out: in ascending order exactly the free indexes below len + count, one more than `count`
   for each index in use at or above that bound.
   */
  lemma NewIndexesAre(used: seq<nat>, count: nat)
    requires Distinct(used)
    ensures var r, bound := NewIndexes(used, count), |used| + count;
      && Ascending(r) && (forall i: nat :: i in r <==> i < bound && i !in used)
      && |r| == count + (|used| - CountBelow(used, bound))
  {
    FreeBelowIs(used, |used| + count);
    FreeAndUsed(used, |used| + count);
  }

  /** As many indexes as asked for are given out exactly when no index in use is at or above len + count. */
  lemma AsManyAsAsked(used: seq<nat>, count: nat)
    requires Distinct(used)
    ensures |NewIndexes(used, count)| == count <==> forall i :: 0 <= i < |used| ==> used[i] < |used| + count
  {
    NewIndexesAre(used, count);
    AllBelow(used, |used| + count);
  }

  class Cluster {
    var nodes: seq<nat>   // the index of each node

    constructor ()
      ensures nodes == []
    {
      nodes := [];
    }

    /** `_create_nodes`: every container but number 0 is given the address of the first node, so there must be one. */
    method CreateNodes(count: nat) returns (newNodes: seq<nat>)
      requires Distinct(nodes)
      modifies this
      ensures Distinct(nodes)
      ensures newNodes == NewIndexes(old(nodes), count) && nodes == old(nodes) + newNodes
    {
      hide FreeBelow;
      newNodes := [];
      var indexes := NewIndexes(nodes, count);
      FreeBelowIs(nodes, |nodes| + count);
      for k := 0 to |indexes|
        invariant newNodes == indexes[..k] && nodes == old(nodes) + newNodes && Distinct(nodes)
      {
        assert indexes[k] in indexes;
        FirstIsZero(old(nodes), count);
        var seed := if indexes[k] != 0 then nodes[0] else 0;
        nodes, newNodes := nodes + [indexes[k]], newNodes + [indexes[k]];
      }
    }

    method Remove(i: nat)
      requires i < |nodes| && Distinct(nodes)
      modifies this
      ensures Distinct(nodes) && nodes == old(nodes[..i] + nodes[i + 1..])
    {
      nodes := nodes[..i] + nodes[i + 1..];
    }
  }

  /** The first container of an empty cluster has number 0. */
  lemma FirstIsZero(used: seq<nat>, count: nat)
    ensures used == [] && count > 0 ==> NewIndexes(used, count) != [] && NewIndexes(used, count)[0] == 0
  {
    hide FreeBelow;
    FreeBelowIs(used, |used| + count);
    if used == [] && count > 0 {
      var r := NewIndexes(used, count);
      assert 0 in r;
    }
  }

  // ---- Runs

  datatype Op = Add(count: nat) | Drop(i: nat)

  function Apply(nodes: seq<nat>, op: Op): (r: seq<nat>) {
    match op
    case Add(count) => nodes + NewIndexes(nodes, count)
    case Drop(i) => if i < |nodes| then nodes[..i] + nodes[i + 1..] else nodes
  }

  function Exec(ops: seq<Op>): (nodes: seq<nat>) {
    if ops == [] then [] else Apply(Exec(ops[..|ops| - 1]), ops[|ops| - 1])
  }

  /** In every run of adds and removals no two nodes have the same index. */
  lemma {:induction false} IndexesStayDistinct(ops: seq<Op>)
    ensures Distinct(Exec(ops))
  {
    hide FreeBelow;
    if ops != [] {
      var before := Exec(ops[..|ops| - 1]);
      IndexesStayDistinct(ops[..|ops| - 1]);
      match ops[|ops| - 1] {
        case Add(count) =>
          FreeBelowIs(before, |before| + count);
          var news := NewIndexes(before, count);
          assert forall k :: 0 <= k < |news| ==> news[k] in news;
        case Drop(_) =>
      }
    }
  }

  /** The surplus does occur: after two removals a request for one node creates two. */
  lemma SurplusIsReachable()
    ensures Exec([Add(3), Drop(0), Drop(0)]) == [2] && NewIndexes([2], 1) == [0, 1]
  {
    var ops := [Add(3), Drop(0), Drop(0)];
    assert ops[..2] == [Add(3), Drop(0)] && ops[..2][..1] == [Add(3)] && ops[..2][..1][..0] == [];
    assert FreeBelow([], 3) == [0, 1, 2] by { FreeOfNothing(); }
    assert Exec([Add(3)]) == [0, 1, 2];
    assert Exec([Add(3), Drop(0)]) == [1, 2];
    assert FreeBelow([2], 0) == [] && FreeBelow([2], 1) == [0] && FreeBelow([2], 2) == [0, 1];
  }

  lemma FreeOfNothing()
    ensures FreeBelow([], 3) == [0, 1, 2]
  {
    assert FreeBelow([], 0) == [] && FreeBelow([], 1) == [0] && FreeBelow([], 2) == [0, 1];
  }
}
