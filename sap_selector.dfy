/**
 * The strong-articulation-point selector: the union, over clusters, of the
 * strong articulation points of the subgraph each cluster induces.
 */
module SapSelector {
  import opened Wrappers
  import opened Graphs

  /**
   * The union of `sap(Subgraph(g, c))` over the clusters `c` of `clusters`,
   * taken from the first cluster on; `sap` is the strong_articulation_points primitive.
   */
  function SapUnion(g: Graph, clusters: seq<set<Package>>, sap: Graph -> set<Package>): set<Package>
  {
    if clusters == [] then {}
    else SapUnion(g, clusters[..|clusters| - 1], sap) + sap(Subgraph(g, clusters[|clusters| - 1]))
  }

  /** A package is in the union exactly when the primitive reports it for one of the clusters. */
  lemma {:induction false} SapUnionMembers(g: Graph, clusters: seq<set<Package>>, sap: Graph -> set<Package>, x: Package)
    ensures x in SapUnion(g, clusters, sap) <==> exists i :: 0 <= i < |clusters| && x in sap(Subgraph(g, clusters[i]))
  {
    if clusters != [] {
      var front := clusters[..|clusters| - 1];
      SapUnionMembers(g, front, sap, x);
      if x in SapUnion(g, front, sap) {
        var i :| 0 <= i < |front| && x in sap(Subgraph(g, front[i]));
        assert clusters[i] == front[i];
      }
      if exists i :: 0 <= i < |clusters| && x in sap(Subgraph(g, clusters[i])) {
        var i :| 0 <= i < |clusters| && x in sap(Subgraph(g, clusters[i]));
        if i < |front| {
          assert front[i] == clusters[i];
        }
      }
    }
  }

  /**
   * If the primitive only reports nodes of the subgraph it is given, every
   * selected package is a package of the network lying in some supplied cluster.
   */
  lemma SapUnionWithinClusters(g: Graph, clusters: seq<set<Package>>, sap: Graph -> set<Package>)
    requires forall i :: 0 <= i < |clusters| ==> sap(Subgraph(g, clusters[i])) <= Subgraph(g, clusters[i]).NodeSet()
    ensures forall x :: x in SapUnion(g, clusters, sap) ==>
              x in g.NodeSet() && exists i :: 0 <= i < |clusters| && x in clusters[i]
  {
    forall x | x in SapUnion(g, clusters, sap)
      ensures x in g.NodeSet() && exists i :: 0 <= i < |clusters| && x in clusters[i]
    {
      SapUnionMembers(g, clusters, sap, x);
      var i :| 0 <= i < |clusters| && x in sap(Subgraph(g, clusters[i]));
      assert x in Subgraph(g, clusters[i]).NodeSet();
    }
  }

  /** Processing two lists of clusters one after the other gives the union of their results. */
  lemma SapUnionOfConcatenation(g: Graph, a: seq<set<Package>>, b: seq<set<Package>>, sap: Graph -> set<Package>)
    ensures SapUnion(g, a + b, sap) == SapUnion(g, a, sap) + SapUnion(g, b, sap)
  {
    forall x ensures x in SapUnion(g, a + b, sap) <==> x in SapUnion(g, a, sap) + SapUnion(g, b, sap) {
      SapUnionMembers(g, a + b, sap, x);
      SapUnionMembers(g, a, sap, x);
      SapUnionMembers(g, b, sap, x);
      if exists i :: 0 <= i < |a + b| && x in sap(Subgraph(g, (a + b)[i])) {
        var i :| 0 <= i < |a + b| && x in sap(Subgraph(g, (a + b)[i]));
        if i >= |a| { assert (a + b)[i] == b[i - |a|]; }
      }
      if exists i :: 0 <= i < |a| && x in sap(Subgraph(g, a[i])) {
        var i :| 0 <= i < |a| && x in sap(Subgraph(g, a[i]));
        assert (a + b)[i] == a[i];
      }
      if exists i :: 0 <= i < |b| && x in sap(Subgraph(g, b[i])) {
        var i :| 0 <= i < |b| && x in sap(Subgraph(g, b[i]));
        assert (a + b)[i + |a|] == b[i];
      }
    }
  }

  /**
   * iset_sap. `sortedClusters` is the network's sorted_clusters() answer,
   * largest first; with no clusters supplied only its first cluster is used,
   * and an empty answer raises as indexing it does.
   */
  method IsetSap(g: Graph, clusters: Option<seq<set<Package>>>, sortedClusters: seq<set<Package>>,
                 sap: Graph -> set<Package>) returns (r: Result<set<Package>, Exception>)
    ensures clusters.None? && |sortedClusters| == 0 ==> r == Failure(IndexError)
    ensures clusters.None? && |sortedClusters| > 0 ==> r == Success(SapUnion(g, [sortedClusters[0]], sap))
    ensures clusters.Some? ==> r == Success(SapUnion(g, clusters.value, sap))
  {
    var cs: seq<set<Package>>;
    if clusters.None? {
      if |sortedClusters| == 0 {
        return Failure(IndexError);
      }
      cs := [sortedClusters[0]];
    } else {
      cs := clusters.value;
    }
    var result: set<Package> := {};
    for i := 0 to |cs|
      invariant result == SapUnion(g, cs[..i], sap)
    {
      var scc := Subgraph(g, cs[i]);
      assert cs[..i + 1][..i] == cs[..i];
      result := result + sap(scc);
    }
    assert cs[..|cs|] == cs;
    r := Success(result);
  }
}
