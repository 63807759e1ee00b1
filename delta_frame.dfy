/**
 * DELTA FRAME: from per-package upper and lower bounds on the vulnerability
 * reduction of immunizing one package, keep every package whose upper bound
 * exceeds the largest lower bound.
 */
module DeltaFrame {
  import opened Wrappers
  import opened Graphs
  import opened Ranking

  /** Every package of `nodes` has an entry in table `m`. */
  predicate Covers(m: MetricTable, nodes: seq<Package>)
  {
    forall i :: 0 <= i < |nodes| ==> nodes[i] in m
  }

  /** The largest value of `m` over the packages of `nodes` (what `top()[0][1]` yields). */
  function MaxOver(nodes: seq<Package>, m: MetricTable): (mx: int)
    requires |nodes| > 0 && Covers(m, nodes)
    ensures exists i :: 0 <= i < |nodes| && m[nodes[i]] == mx
    ensures forall i :: 0 <= i < |nodes| ==> m[nodes[i]] <= mx
  {
    if |nodes| == 1 then m[nodes[0]]
    else
      var rest := MaxOver(nodes[1..], m);
      assert forall i :: 1 <= i < |nodes| ==> nodes[i] == nodes[1..][i - 1];
      if m[nodes[0]] >= rest then m[nodes[0]] else rest
  }

  /** Any valid top answer of the lower-bound table starts with the value MaxOver computes. */
  lemma MaxOverIsTopValue(nodes: seq<Package>, m: MetricTable, k: nat, t: seq<(Package, int)>)
    requires |nodes| > 0 && m.Keys == set p | p in nodes
    requires IsTop(m, k, t) && k >= 1
    ensures t[0].1 == MaxOver(nodes, m)
  {
    TopFirstIsMaximum(m, k, t);
    var mx := MaxOver(nodes, m);
    var i :| 0 <= i < |nodes| && m[nodes[i]] == mx;
    assert t[0].0 in set p | p in nodes;
    var j :| 0 <= j < |nodes| && nodes[j] == t[0].0;
    assert m[nodes[j]] <= mx;
  }

  /**
   * The selection shared by both variants (olivia/immunization.py:95-96 and 122-123): fail as
   * `top()[0]` does on an empty table, otherwise keep the packages whose upper
   * bound is strictly above the largest lower bound.
   */
  function Select(nodes: seq<Package>, upper: MetricTable, lower: MetricTable): (r: Result<set<Package>, Exception>)
    requires Covers(upper, nodes) && Covers(lower, nodes)
    ensures r.Failure? <==> |nodes| == 0
    ensures r.Failure? ==> r.error == IndexError
    ensures r.Success? ==> forall p :: p in r.value <==>
              p in nodes && forall q :: q in nodes ==> upper[p] > lower[q]
  {
    if |nodes| == 0 then Failure(IndexError)
    else
      var maxLower := MaxOver(nodes, lower);
      Success(set p | p in nodes && upper[p] > maxLower)
  }

  /**
   * Soundness (the doc comment of `iset_delta_frame_reach`, olivia/immunization.py:76-78): if the true reductions `truth` lie between
   * the bounds, no package left out of the frame reduces vulnerability more
   * than a package `best` whose lower bound is the largest one; so if an
   * optimal package is left out, `best` is optimal as well.
   */
  lemma SelectIsSound(nodes: seq<Package>, upper: MetricTable, lower: MetricTable,
                      truth: map<Package, real>, best: Package)
    requires Covers(upper, nodes) && Covers(lower, nodes) && |nodes| > 0
    requires forall p :: p in nodes ==> p in truth && lower[p] as real <= truth[p] <= upper[p] as real
    requires best in nodes && forall q :: q in nodes ==> lower[q] <= lower[best]
    ensures forall p :: p in nodes && p !in Select(nodes, upper, lower).value ==> truth[p] <= truth[best]
    ensures forall o ::
              (o in nodes && o !in Select(nodes, upper, lower).value && forall q :: q in nodes ==> truth[q] <= truth[o])
              ==> truth[o] == truth[best]
  {
    var r := Select(nodes, upper, lower).value;
    forall p | p in nodes && p !in r ensures truth[p] <= truth[best] {
      var i :| 0 <= i < |nodes| && nodes[i] == p;
      assert !(upper[p] > lower[best]);
    }
  }

  /** The pointwise product of two metric tables over the model's packages (the `*` of metric tables). */
  function Product(g: Graph, a: MetricTable, b: MetricTable): (m: MetricTable)
    requires a.Keys == g.NodeSet() && b.Keys == g.NodeSet()
    ensures m.Keys == g.NodeSet()
    ensures forall p :: p in m ==> m[p] == a[p] * b[p]
  {
    map p | p in g.NodeSet() :: a[p] * b[p]
  }

  /** Lower bound `Reach + Surface - 1` of the Reach variant. */
  function ReachLower(g: Graph, reach: MetricTable, surface: MetricTable): (l: MetricTable)
    requires reach.Keys == g.NodeSet() && surface.Keys == g.NodeSet()
    ensures l.Keys == g.NodeSet()
    ensures forall p :: p in l ==> l[p] == reach[p] + surface[p] - 1
  {
    map p | p in g.NodeSet() :: reach[p] + surface[p] - 1
  }

  /** iset_delta_frame_reach. */
  function DeltaFrameReach(g: Graph, reach: MetricTable, surface: MetricTable): (r: Result<set<Package>, Exception>)
    requires reach.Keys == g.NodeSet() && surface.Keys == g.NodeSet()
    ensures r.Failure? <==> |g.nodes| == 0
    ensures r.Failure? ==> r.error == IndexError
    ensures r.Success? ==> forall p :: p in r.value <==>
              p in g.NodeSet() && forall q :: q in g.NodeSet() ==> reach[p] * surface[p] > reach[q] + surface[q] - 1
  {
    Select(g.nodes, Product(g, reach, surface), ReachLower(g, reach, surface))
  }

  /** For counts of at least 1, the Reach variant's lower bound never exceeds its upper bound. */
  lemma ReachBoundsOrdered(g: Graph, reach: MetricTable, surface: MetricTable)
    requires reach.Keys == g.NodeSet() && surface.Keys == g.NodeSet()
    requires forall p :: p in g.NodeSet() ==> reach[p] >= 1 && surface[p] >= 1
    ensures forall p :: p in g.NodeSet() ==> ReachLower(g, reach, surface)[p] <= Product(g, reach, surface)[p]
  {
    forall p | p in g.NodeSet() ensures reach[p] + surface[p] - 1 <= reach[p] * surface[p] {
      var a, b := reach[p] - 1, surface[p] - 1;
      assert a * b >= 0;
      assert (a + 1) * (b + 1) == a * b + a + b + 1;
    }
  }

  /** iset_delta_frame_impact. */
  function DeltaFrameImpact(g: Graph, impact: MetricTable, dependents: MetricTable, surface: MetricTable)
    : (r: Result<set<Package>, Exception>)
    requires impact.Keys == g.NodeSet() && dependents.Keys == g.NodeSet() && surface.Keys == g.NodeSet()
    ensures r.Failure? <==> |g.nodes| == 0
    ensures r.Failure? ==> r.error == IndexError
    ensures r.Success? ==> forall p :: p in r.value <==>
              p in g.NodeSet() && forall q :: q in g.NodeSet() ==> impact[p] * surface[p] > dependents[q] * surface[q]
  {
    Select(g.nodes, Product(g, impact, surface), Product(g, dependents, surface))
  }

  /** With a non-negative Surface and DependentsCount at most Impact, the Impact variant's bounds are ordered. */
  lemma ImpactBoundsOrdered(g: Graph, impact: MetricTable, dependents: MetricTable, surface: MetricTable)
    requires impact.Keys == g.NodeSet() && dependents.Keys == g.NodeSet() && surface.Keys == g.NodeSet()
    requires forall p :: p in g.NodeSet() ==> dependents[p] <= impact[p] && surface[p] >= 0
    ensures forall p :: p in g.NodeSet() ==>
              Product(g, dependents, surface)[p] <= Product(g, impact, surface)[p]
  {
    forall p | p in g.NodeSet() ensures dependents[p] * surface[p] <= impact[p] * surface[p] {
      assert (impact[p] - dependents[p]) * surface[p] >= 0;
    }
  }
  /**
   * As written, the strict comparison can return an empty frame: a network of
   * one package with Reach 1 and Surface 1 has both bounds equal to 1, so its
   * only package, optimal by necessity, is left out.
   */
  lemma ReachFrameCanMissOptimum()
    ensures var g := Graph(["a"], map["a" := {}]);
            var r := DeltaFrameReach(g, map["a" := 1], map["a" := 1]);
            r.Success? && r.value == {}
  {
    var g := Graph(["a"], map["a" := {}]);
    assert g.NodeSet() == {"a"};
  }

  /** The same for the Impact variant: Impact, DependentsCount and Surface all 1 on a single package. */
  lemma ImpactFrameCanMissOptimum()
    ensures var g := Graph(["a"], map["a" := {}]);
            var r := DeltaFrameImpact(g, map["a" := 1], map["a" := 1], map["a" := 1]);
            r.Success? && r.value == {}
  {
    var g := Graph(["a"], map["a" := {}]);
    assert g.NodeSet() == {"a"};
  }

  /** The selection with the comparison the documented guarantee needs: upper bound at least the largest lower bound. */
  function SelectInclusive(nodes: seq<Package>, upper: MetricTable, lower: MetricTable): (r: Result<set<Package>, Exception>)
    requires Covers(upper, nodes) && Covers(lower, nodes)
    ensures r.Failure? <==> |nodes| == 0
    ensures r.Failure? ==> r.error == IndexError
    ensures r.Success? ==> forall p :: p in r.value <==>
              p in nodes && forall q :: q in nodes ==> upper[p] >= lower[q]
  {
    if |nodes| == 0 then Failure(IndexError)
    else
      var maxLower := MaxOver(nodes, lower);
      Success(set p | p in nodes && upper[p] >= maxLower)
  }

  /**
   * With the inclusive comparison the guarantee of olivia/immunization.py:76-78 holds:
   * when the true reductions lie between the bounds, every optimal package is
   * in the frame, and the frame of a non-empty network is never empty.
   */
  lemma SelectInclusiveContainsEveryOptimum(nodes: seq<Package>, upper: MetricTable, lower: MetricTable,
                                            truth: map<Package, real>)
    requires Covers(upper, nodes) && Covers(lower, nodes) && |nodes| > 0
    requires forall p :: p in nodes ==> p in truth && lower[p] as real <= truth[p] <= upper[p] as real
    ensures forall o :: o in nodes && (forall q :: q in nodes ==> truth[q] <= truth[o]) ==>
              o in SelectInclusive(nodes, upper, lower).value
    ensures SelectInclusive(nodes, upper, lower).value != {}
  {
    var maxLower := MaxOver(nodes, lower);
    var i :| 0 <= i < |nodes| && lower[nodes[i]] == maxLower;
    var best := nodes[i];
    assert best in SelectInclusive(nodes, upper, lower).value;
    forall o | o in nodes && (forall q :: q in nodes ==> truth[q] <= truth[o])
      ensures o in SelectInclusive(nodes, upper, lower).value
    {
      assert truth[best] <= truth[o];
      assert upper[o] >= maxLower;
    }
  }
}
