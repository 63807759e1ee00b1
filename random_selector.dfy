/**
 * The random baseline selectors. Randomness is an oracle: `draw(i)` is the
 * i-th number the generator yields, and a draw from a sequence of length n
 * takes the element at position `draw(i) % n`.
 */
module RandomSelector {
  import opened Wrappers
  import opened Graphs

  /** How a run of the indirect loop ends within its fuel; StillRunning means the loop had not stopped yet. */
  datatype Run<+T> = Returns(value: T) | Raises(error: Exception) | StillRunning

  /** The packages that are a direct dependency of some package of the network. */
  function DependencyPool(g: Graph): (pool: set<Package>)
    ensures forall x :: x in pool <==> IsDirectDependency(g, x)
    ensures g.Valid() ==> pool <= g.NodeSet()
  {
    set p, x | p in g.deps && x in g.deps[p] :: x
  }

  lemma {:induction false} RemoveAtKeepsOthers(s: seq<Package>, j: nat)
    requires j < |s|
    ensures Distinct(s) ==> Distinct(s[..j] + s[j + 1..]) && s[j] !in s[..j] + s[j + 1..]
    ensures forall x :: x in s[..j] + s[j + 1..] ==> x in s
  {
    var rest := s[..j] + s[j + 1..];
    assert forall i :: 0 <= i < |rest| ==> rest[i] == if i < j then s[i] else s[i + 1];
  }

  /**
   * A sample of `k` packages without replacement: each step draws a position
   * in what is left of the pool and takes the package there out of it.
   */
  function Sample(pool: seq<Package>, k: nat, draw: nat -> nat, next: nat): (s: seq<Package>)
    requires k <= |pool|
    ensures |s| == k
    ensures forall x :: x in s ==> x in pool
    ensures Distinct(pool) ==> Distinct(s)
    decreases k
  {
    if k == 0 then []
    else
      var j := draw(next) % |pool|;
      var rest := pool[..j] + pool[j + 1..];
      RemoveAtKeepsOthers(pool, j);
      [pool[j]] + Sample(rest, k - 1, draw, next + 1)
  }

  /**
   * Direct mode, `set(random.sample(packages, k=set_size))`: `set_size`
   * distinct packages of the network, or ValueError when `set_size` is
   * negative or exceeds the number of packages.
   */
  function RandomDirect(g: Graph, setSize: int, draw: nat -> nat): (r: Result<set<Package>, Exception>)
    requires g.Valid()
    ensures r.Failure? <==> setSize < 0 || setSize > |g.nodes|
    ensures r.Failure? ==> r.error == ValueError
    ensures r.Success? ==> |r.value| == setSize && r.value <= g.NodeSet()
  {
    if setSize < 0 || setSize > |g.nodes| then Failure(ValueError)
    else
      var s := Sample(g.nodes, setSize, draw, 0);
      DistinctCardinality(s);
      Success(set x | x in s)
  }

  /**
   * Indirect mode: until the result holds `setSize` packages, draw packages
   * until one has a direct dependency, then add one of its dependencies. The
   * source loop has no bound; here every package draw spends one unit of
   * `fuel`, and a run that exhausts it reports StillRunning.
   */
  method RandomIndirect(g: Graph, setSize: int, draw: nat -> nat, fuel: nat) returns (r: Run<set<Package>>)
    requires g.Valid()
    ensures r.Returns? ==> |r.value| == setSize && r.value <= DependencyPool(g)
    ensures r.Returns? ==> forall x :: x in r.value ==> IsDirectDependency(g, x)
    ensures r.Raises? <==> |g.nodes| == 0 && setSize != 0
    ensures r.Raises? ==> r.error == IndexError
    ensures setSize == 0 ==> r == Returns({})
    ensures setSize < 0 || setSize > |DependencyPool(g)| ==> !r.Returns?
  {
    var packages := g.nodes;
    var result: set<Package> := {};
    var next: nat := 0;
    var budget := fuel;
    while |result| != setSize
      invariant result <= DependencyPool(g)
      invariant 0 <= setSize ==> |result| <= setSize
      invariant |packages| == 0 ==> result == {}
      decreases budget
    {
      ghost var budgetBefore := budget;
      var dependencies: set<Package> := {};
      while |dependencies| == 0
        invariant dependencies <= DependencyPool(g)
        invariant |packages| == 0 ==> dependencies == {}
        invariant budget <= budgetBefore
        invariant |dependencies| > 0 ==> budget < budgetBefore
        decreases budget
      {
        if |packages| == 0 {
          return Raises(IndexError);
        }
        if budget == 0 {
          return StillRunning;
        }
        budget := budget - 1;
        var current := packages[draw(next) % |packages|];
        next := next + 1;
        dependencies := g.deps[current];
      }
      var dependency :| dependency in dependencies;
      result := result + {dependency};
    }
    if 0 <= setSize {
      SubsetCardinality(result, DependencyPool(g));
    }
    r := Returns(result);
  }

  /** iset_random: the direct or the indirect selector, as `indirect` says. */
  method IsetRandom(g: Graph, setSize: int, indirect: bool, draw: nat -> nat, fuel: nat) returns (r: Run<set<Package>>)
    requires g.Valid()
    ensures !indirect ==> r == match RandomDirect(g, setSize, draw)
                               case Success(s) => Returns(s)
                               case Failure(e) => Raises(e)
    ensures r.Returns? ==> |r.value| == setSize && r.value <= g.NodeSet()
    ensures indirect && r.Returns? ==> forall x :: x in r.value ==> IsDirectDependency(g, x)
    ensures indirect ==> (r.Raises? <==> |g.nodes| == 0 && setSize != 0)
    ensures indirect && r.Raises? ==> r.error == IndexError
    ensures indirect && setSize == 0 ==> r == Returns({})
    ensures indirect && (setSize < 0 || setSize > |DependencyPool(g)|) ==> !r.Returns?
  {
    if indirect {
      r := RandomIndirect(g, setSize, draw, fuel);
    } else {
      var direct := RandomDirect(g, setSize, draw);
      r := match direct
        case Success(s) => Returns(s)
        case Failure(e) => Raises(e);
    }
  }
}
