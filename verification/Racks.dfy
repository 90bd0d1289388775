/**
 How nodes are spread over availability zones and racks: the round-robin loop of
 `BaseCluster.__init__`, the quotient and remainder of `AWSCluster.add_nodes`, and the
 labels given to the nodes afterwards.
 */
module Racks {

  /** `[base + 1 if i < extra else base for i in range(racks)]` */
  function Distribution(count: nat, racks: nat): (d: seq<nat>)
    requires racks > 0
    ensures |d| == racks
  {
    seq(racks, i requires 0 <= i < racks => count / racks + if i < count % racks then 1 else 0)
  }

  lemma NextOne(count: nat, racks: nat)
    requires racks > 0
    ensures if count % racks + 1 < racks
            then (count + 1) / racks == count / racks && (count + 1) % racks == count % racks + 1
            else (count + 1) / racks == count / racks + 1 && (count + 1) % racks == 0
  {
    var q, r := count / racks, count % racks;
    assert count == q * racks + r;
    if r + 1 < racks {
      DivModUnique(count + 1, racks, q, r + 1);
    } else {
      assert count + 1 == (q + 1) * racks;
      DivModUnique(count + 1, racks, q + 1, 0);
    }
  }

  lemma DivModUnique(n: nat, d: nat, q: nat, r: nat)
    requires d > 0 && n == q * d + r && r < d
    ensures n / d == q && n % d == r
  {
    var q', r' := n / d, n % d;
    assert n == q' * d + r';
    MulStep(q', q, d);
    MulStep(q, q', d);
  }

  lemma MulStep(a: nat, b: nat, d: nat)
    ensures a < b ==> a * d + d <= b * d
  {
    if a + 1 < b {
      MulStep(a, b - 1, d);
    }
    assert a < b ==> b * d == (b - 1) * d + d;
  }

  /** One more node goes to the next rack in turn. */
  lemma DistributionGrows(count: nat, racks: nat)
    requires racks > 0
    ensures var r := count % racks;
      Distribution(count + 1, racks) == Distribution(count, racks)[r := Distribution(count, racks)[r] + 1]
  {
    NextOne(count, racks);
  }

  /** The round-robin loop gives the same distribution. */
  method NodesPerAz(num: nat, azs: nat) returns (perAz: array<nat>)
    requires azs > 0
    ensures perAz[..] == Distribution(num, azs)
  {
    perAz := new nat[azs](_ => 0);
    assert perAz[..] == Distribution(0, azs);
    for idx := 0 to num
      invariant perAz.Length == azs && perAz[..] == Distribution(idx, azs)
    {
      DistributionGrows(idx, azs);
      var r := idx % azs;
      assert perAz[r] == perAz[..][r];
      perAz[r] := perAz[r] + 1;
    }
  }

  function Sum(d: seq<nat>): (n: nat) {
    if d == [] then 0 else Sum(d[..|d| - 1]) + d[|d| - 1]
  }

  lemma {:induction false} SumUpdate(d: seq<nat>, r: nat)
    requires r < |d|
    ensures Sum(d[r := d[r] + 1]) == Sum(d) + 1
  {
    var n := |d| - 1;
    if r == n {
      assert d[r := d[r] + 1][..n] == d[..n];
    } else {
      assert d[r := d[r] + 1][..n] == d[..n][r := d[..n][r] + 1];
      SumUpdate(d[..n], r);
    }
  }

  lemma {:induction false} SumOfZeros(racks: nat, d: seq<nat>)
    requires |d| == racks && forall i :: 0 <= i < racks ==> d[i] == 0
    ensures Sum(d) == 0
  {
    if racks > 0 {
      SumOfZeros(racks - 1, d[..racks - 1]);
    }
  }

  lemma {:induction false} SharesAddUp(count: nat, racks: nat)
    requires racks > 0
    ensures Sum(Distribution(count, racks)) == count
  {
    if count == 0 {
      SumOfZeros(racks, Distribution(0, racks));
    } else {
      SharesAddUp(count - 1, racks);
      DistributionGrows(count - 1, racks);
      SumUpdate(Distribution(count - 1, racks), (count - 1) % racks);
    }
  }

  /** The shares add up to the count, and no two racks differ by more than one. */
  lemma DistributionIsFair(count: nat, racks: nat)
    requires racks > 0
    ensures Sum(Distribution(count, racks)) == count
    ensures forall i, j :: 0 <= i < racks && 0 <= j < racks ==>
      Distribution(count, racks)[i] <= Distribution(count, racks)[j] + 1
  {
    SharesAddUp(count, racks);
  }

  // ---- Labels

  /** The racks the instances were created on: those of rack 0 first, then those of rack 1, ... */
  function InstanceRacks(d: seq<nat>): (rs: seq<nat>) {
    if d == [] then [] else InstanceRacks(d[..|d| - 1]) + seq(d[|d| - 1], _ => |d| - 1)
  }

  /** The racks the nodes are labelled with: `node_index % racks_count`. */
  function Labels(count: nat, racks: nat): (rs: seq<nat>)
    requires racks > 0
    ensures |rs| == count
  {
    seq(count, i requires 0 <= i => i % racks)
  }

  lemma RepeatCount(n: nat, x: nat, r: nat)
    ensures multiset(seq(n, _ => x))[r] == if r == x then n else 0
  {
    if n > 0 {
      RepeatCount(n - 1, x, r);
      assert seq(n, _ => x) == seq(n - 1, _ => x) + [x];
    }
  }

  lemma {:induction false} InstancesPerRack(d: seq<nat>, r: nat)
    ensures multiset(InstanceRacks(d))[r] == if r < |d| then d[r] else 0
    ensures |InstanceRacks(d)| == Sum(d)
  {
    if d != [] {
      InstancesPerRack(d[..|d| - 1], r);
      RepeatCount(d[|d| - 1], |d| - 1, r);
    }
  }

  lemma LabelsGrow(count: nat, racks: nat)
    requires racks > 0
    ensures Labels(count + 1, racks) == Labels(count, racks) + [count % racks]
  {
  }

  lemma OneMore(labels: seq<nat>, x: nat, r: nat)
    ensures multiset(labels + [x])[r] == multiset(labels)[r] + if r == x then 1 else 0
  {
  }

  lemma NoLabels(racks: nat, r: nat)
    requires racks > 0
    ensures multiset(Labels(0, racks))[r] == 0 && (r < racks ==> Distribution(0, racks)[r] == 0)
  {
  }

  lemma {:induction false} LabelsPerRack(count: nat, racks: nat, r: nat)
    requires racks > 0
    ensures multiset(Labels(count, racks))[r] == if r < racks then Distribution(count, racks)[r] else 0
  {
    hide Labels, Distribution;
    if count == 0 {
      NoLabels(racks, r);
    } else {
      var x := (count - 1) % racks;
      LabelsPerRack(count - 1, racks, r);
      DistributionGrows(count - 1, racks);
      LabelsGrow(count - 1, racks);
      OneMore(Labels(count - 1, racks), x, r);
    }
  }

  /** Every rack is the label of as many nodes as it has instances, though the labels may be on other nodes. */
  lemma LabelTotalsMatch(count: nat, racks: nat)
    requires racks > 0
    ensures multiset(Labels(count, racks)) == multiset(InstanceRacks(Distribution(count, racks)))
  {
    forall r: nat ensures multiset(Labels(count, racks))[r] == multiset(InstanceRacks(Distribution(count, racks)))[r] {
      LabelsPerRack(count, racks, r);
      InstancesPerRack(Distribution(count, racks), r);
    }
  }

  lemma {:induction false} OneEach(d: seq<nat>, k: nat)
    requires k <= |d| && forall i :: 0 <= i < |d| ==> d[i] == if i < k then 1 else 0
    ensures |InstanceRacks(d)| == k && forall i :: 0 <= i < k ==> InstanceRacks(d)[i] == i
  {
    if d != [] {
      OneEach(d[..|d| - 1], if k == |d| then k - 1 else k);
    }
  }

  lemma OneRackMatches(count: nat)
    ensures Labels(count, 1) == InstanceRacks(Distribution(count, 1))
  {
    var d := Distribution(count, 1);
    assert d[..0] == [] && InstanceRacks([]) == [];
    assert InstanceRacks(d) == [] + seq(count, _ => 0);
  }

  lemma FewNodesMatch(count: nat, racks: nat)
    requires racks > 0 && count <= racks
    ensures Labels(count, racks) == InstanceRacks(Distribution(count, racks))
  {
    if count == racks { DivModUnique(count, racks, 1, 0); } else { DivModUnique(count, racks, 0, count); }
    OneEach(Distribution(count, racks), count);
    forall i | 0 <= i < count ensures i % racks == i { DivModUnique(i, racks, 0, i); }
  }

  lemma ManyNodesDiffer(count: nat, racks: nat)
    requires 1 < racks < count
    ensures Labels(count, racks)[1] == 1
    ensures |InstanceRacks(Distribution(count, racks))| == count && InstanceRacks(Distribution(count, racks))[1] == 0
  {
    hide InstanceRacks;
    var d := Distribution(count, racks);
    FirstRackFirst(d);
    DistributionIsFair(count, racks);
    InstancesPerRack(d, 0);
    DivModUnique(1, racks, 0, 1);
    assert d[0] >= 2 by {
      if count < 2 * racks { DivModUnique(count, racks, 1, count - racks); } else { MulStep(count / racks, 2, racks); }
    }
  }

  /** Every node is labelled with its instance's own rack exactly when there is one rack or no rack gets two nodes. */
  lemma LabelsMatchExactly(count: nat, racks: nat)
    requires racks > 0
    ensures Labels(count, racks) == InstanceRacks(Distribution(count, racks)) <==> racks == 1 || count <= racks
  {
    hide Labels, InstanceRacks, Distribution;
    if racks == 1 {
      OneRackMatches(count);
    } else if count <= racks {
      FewNodesMatch(count, racks);
    } else {
      ManyNodesDiffer(count, racks);
    }
  }

  lemma {:induction false} FirstRackFirst(d: seq<nat>)
    requires d != []
    ensures |InstanceRacks(d)| >= d[0] && forall i :: 0 <= i < d[0] ==> InstanceRacks(d)[i] == 0
  {
    if |d| > 1 {
      FirstRackFirst(d[..|d| - 1]);
    } else {
      assert d[..0] == [];
    }
  }
}
