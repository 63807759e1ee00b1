/**
 * The dependency network the immunization functions read: its packages in
 * iteration order and, for each package, the set of its direct dependencies.
 * Induced subgraphs and node removal are defined here once, as values.
 */
module Graphs {

  type Package = string

  /** No package occurs twice in `s`. */
  predicate Distinct(s: seq<Package>)
  {
    forall i, j :: 0 <= i < j < |s| ==> s[i] != s[j]
  }

  datatype Graph = Graph(nodes: seq<Package>, deps: map<Package, set<Package>>)
  {
    /** The packages of the network, as a set. */
    function NodeSet(): set<Package>
    {
      set p | p in nodes
    }

    /** Every package is listed once, has an entry in `deps`, and depends only on packages of the network. */
    ghost predicate Valid()
    {
      && Distinct(nodes)
      && deps.Keys == NodeSet()
      && forall p :: p in deps ==> deps[p] <= NodeSet()
    }
  }

  /** `x` is a direct dependency of some package of `g`. */
  ghost predicate IsDirectDependency(g: Graph, x: Package)
  {
    exists p :: p in g.deps && x in g.deps[p]
  }

  /** The elements of `s` that lie in `c`, in the order of `s`. */
  function Keep(s: seq<Package>, c: set<Package>): (r: seq<Package>)
    ensures forall x :: x in r <==> x in s && x in c
    ensures Distinct(s) ==> Distinct(r)
    ensures |r| <= |s|
  {
    if s == [] then []
    else (if s[0] in c then [s[0]] else []) + Keep(s[1..], c)
  }

  lemma {:induction false} KeepEverything(s: seq<Package>, c: set<Package>)
    requires forall x :: x in s ==> x in c
    ensures Keep(s, c) == s
  {
    if s != [] {
      KeepEverything(s[1..], c);
    }
  }

  /** The subgraph induced by `c` (networkx `subgraph`): the packages in `c` and the dependencies among them. */
  function Subgraph(g: Graph, c: set<Package>): (h: Graph)
    ensures h.NodeSet() == g.NodeSet() * c
    ensures g.Valid() ==> h.Valid()
  {
    Graph(Keep(g.nodes, c), map p | p in g.deps && p in c :: g.deps[p] * c)
  }

  /** The network with the packages of `n` removed (the `removed` context manager, inside its block). */
  function Removed(g: Graph, n: set<Package>): (h: Graph)
    ensures h.NodeSet() == g.NodeSet() - n
    ensures g.Valid() ==> h.Valid()
  {
    Subgraph(g, g.NodeSet() - n)
  }

  /** Removing no package gives back the same network. */
  lemma RemovedNothing(g: Graph)
    requires g.Valid()
    ensures Removed(g, {}) == g
  {
    KeepEverything(g.nodes, g.NodeSet());
    var h := Removed(g, {});
    assert h.deps == g.deps by {
      forall p | p in g.deps
        ensures p in h.deps && h.deps[p] == g.deps[p]
      {
        assert g.deps[p] <= g.NodeSet();
      }
    }
  }

  /** A list without repeats has as many elements as the set of its elements. */
  lemma {:induction false} DistinctCardinality(s: seq<Package>)
    requires Distinct(s)
    ensures |set x | x in s| == |s|
  {
    if s != [] {
      DistinctCardinality(s[1..]);
      assert (set x | x in s) == {s[0]} + (set x | x in s[1..]);
      assert s[0] !in (set x | x in s[1..]);
    }
  }

  /** A subset is no larger than its superset. */
  lemma {:induction false} SubsetCardinality(a: set<Package>, b: set<Package>)
    requires a <= b
    ensures |a| <= |b|
  {
    if a != {} {
      var x :| x in a;
      SubsetCardinality(a - {x}, b - {x});
    }
  }
}
