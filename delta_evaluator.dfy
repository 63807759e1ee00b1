/**
 * The delta evaluator: the vulnerability of a network before and after a set
 * of packages is immunized (removed), the second score scaled by the share of
 * packages that remain.
 */
module DeltaEvaluator {
  import opened Wrappers
  import opened Graphs

  /** Initial vulnerability, size-corrected vulnerability after immunization, and their difference. */
  datatype Delta = Delta(before: real, after: real, improvement: real)

  /** The size correction `(|V| - |n|) / |V|`, exact; its denominator must be non-zero. */
  function SizeCorrection(total: nat, immunized: nat): (s: real)
    requires total > 0
    ensures immunized <= total ==> 0.0 <= s <= 1.0
    ensures s == 1.0 <==> immunized == 0
    ensures s == 0.0 <==> immunized == total
    ensures s * total as real == (total - immunized) as real
  {
    (total - immunized) as real / total as real
  }

  /**
   * The arithmetic of immunization_delta once both vulnerability scores are known:
   * `f1` of the whole network, `f2raw` of the network rebuilt without the immunized set.
   */
  function DeltaOf(f1: real, f2raw: real, total: nat, immunized: nat): (r: Result<Delta, Exception>)
    ensures r.Failure? <==> total == 0
    ensures r.Failure? ==> r.error == ZeroDivisionError
    ensures r.Success? ==> r.value.before == f1 && r.value.improvement == r.value.before - r.value.after
    ensures r.Success? ==> r.value.after * total as real == (total - immunized) as real * f2raw
  {
    if total == 0 then Failure(ZeroDivisionError)
    else
      var f2 := SizeCorrection(total, immunized) * f2raw;
      Success(Delta(f1, f2, f1 - f2))
  }

  /** Immunizing every package scales the second score to 0, so the improvement is the whole initial score. */
  lemma WholeNetworkImmunized(f1: real, f2raw: real, total: nat)
    requires total > 0
    ensures DeltaOf(f1, f2raw, total, total) == Success(Delta(f1, 0.0, f1))
  {
    assert SizeCorrection(total, total) == 0.0;
    assert DeltaOf(f1, f2raw, total, total).value.after == SizeCorrection(total, total) * f2raw;
    assert DeltaOf(f1, f2raw, total, total).value == Delta(f1, 0.0, f1);
  }

  /** Immunizing no package leaves the second score unscaled. */
  lemma NothingImmunized(f1: real, f2raw: real, total: nat)
    requires total > 0
    ensures DeltaOf(f1, f2raw, total, 0) == Success(Delta(f1, f2raw, f1 - f2raw))
  {
    assert SizeCorrection(total, 0) == 1.0;
    assert DeltaOf(f1, f2raw, total, 0).value.after == SizeCorrection(total, 0) * f2raw;
    assert DeltaOf(f1, f2raw, total, 0).value == Delta(f1, f2raw, f1 - f2raw);
  }

  /** For a non-negative raw score and at most `total` immunized packages, the scaled score lies between 0 and the raw score. */
  lemma AfterWithinRawScore(f1: real, f2raw: real, total: nat, immunized: nat)
    requires total > 0 && immunized <= total && f2raw >= 0.0
    ensures DeltaOf(f1, f2raw, total, immunized).Success?
    ensures 0.0 <= DeltaOf(f1, f2raw, total, immunized).value.after <= f2raw
  {
    var s := SizeCorrection(total, immunized);
    assert 0.0 <= s <= 1.0;
    assert s * f2raw <= 1.0 * f2raw by {
      assert (1.0 - s) * f2raw >= 0.0;
    }
  }

  /**
   * The network object: immunization_delta removes the immunized packages from
   * `network` in place for the duration of the rebuild and restores it afterwards.
   */
  class OliviaNetwork {
    var network: Graph

    constructor (g: Graph)
      ensures network == g
    {
      network := g;
    }

    /**
     * immunization_delta. `vulnerability(g)` stands for the Phi score, under the
     * chosen cost metric, of a model built from topology `g`; this object's own
     * model is taken to be built from `network`.
     */
    method ImmunizationDelta(n: set<Package>, vulnerability: Graph -> real) returns (r: Result<Delta, Exception>)
      modifies this
      ensures network == old(network)
      ensures r == DeltaOf(vulnerability(old(network)), vulnerability(Removed(old(network), n)), |old(network).nodes|, |n|)
    {
      var f1 := vulnerability(network);
      if |network.nodes| == 0 {
        return Failure(ZeroDivisionError);
      }
      var sizeCorrection := SizeCorrection(|network.nodes|, |n|);
      var saved := network;
      network := Removed(network, n);
      var f2 := vulnerability(network);
      network := saved;
      f2 := sizeCorrection * f2;
      r := Success(Delta(f1, f2, f1 - f2));
      assert r.value == DeltaOf(f1, vulnerability(Removed(saved, n)), |saved.nodes|, |n|).value;
    }
  }

  /** On a deterministic rebuild, immunizing nothing improves nothing. */
  lemma EmptySetImprovesNothing(g: Graph, vulnerability: Graph -> real)
    requires g.Valid() && |g.nodes| > 0
    ensures DeltaOf(vulnerability(g), vulnerability(Removed(g, {})), |g.nodes|, 0)
            == Success(Delta(vulnerability(g), vulnerability(g), 0.0))
  {
    RemovedNothing(g);
    NothingImmunized(vulnerability(g), vulnerability(g), |g.nodes|);
  }

  /** When the immunized set is the whole network, the improvement equals the initial score. */
  lemma WholeSetImprovementIsInitialScore(g: Graph, vulnerability: Graph -> real)
    requires g.Valid() && |g.nodes| > 0
    ensures DeltaOf(vulnerability(g), vulnerability(Removed(g, g.NodeSet())), |g.nodes|, |g.NodeSet()|)
            == Success(Delta(vulnerability(g), 0.0, vulnerability(g)))
  {
    DistinctCardinality(g.nodes);
    WholeNetworkImmunized(vulnerability(g), vulnerability(Removed(g, g.NodeSet())), |g.nodes|);
  }
}
