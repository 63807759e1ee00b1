/**
 * The top-k query of a metric table and the naive ranking selector built on it.
 * The query belongs to the metric provider; only its contract is fixed here.
 */
module Ranking {
  import opened Graphs

  /** A metric table: one value per package. */
  type MetricTable = map<Package, int>

  /**
   * `t` is a valid answer of `m.top(k)`: `k` pairs of a package of `m` and its
   * value, no package twice, in non-increasing order of value, and no package
   * left out has a larger value than any package returned. Ties are broken in
   * whatever way the provider chooses.
   */
  ghost predicate IsTop(m: MetricTable, k: nat, t: seq<(Package, int)>)
  {
    && |t| == k
    && (forall i :: 0 <= i < |t| ==> t[i].0 in m && t[i].1 == m[t[i].0])
    && (forall i, j :: 0 <= i < j < |t| ==> t[i].0 != t[j].0 && t[i].1 >= t[j].1)
    && (forall i, q :: 0 <= i < |t| && q in m && q !in NaiveRanking(t) ==> m[q] <= t[i].1)
  }

  /** iset_naive_ranking: the package component of each pair of the top-k answer. */
  function NaiveRanking(t: seq<(Package, int)>): set<Package>
  {
    set i | 0 <= i < |t| :: t[i].0
  }

  /** The selection of a non-empty answer is its first package plus the selection of the rest. */
  lemma NaiveRankingUnfold(t: seq<(Package, int)>)
    requires t != []
    ensures NaiveRanking(t) == {t[0].0} + NaiveRanking(t[1..])
  {
    forall x | x in NaiveRanking(t) ensures x in {t[0].0} + NaiveRanking(t[1..]) {
      var i :| 0 <= i < |t| && t[i].0 == x;
      if i > 0 { assert t[1..][i - 1].0 == x; }
    }
    forall x | x in NaiveRanking(t[1..]) ensures x in NaiveRanking(t) {
      var i :| 0 <= i < |t[1..]| && t[1..][i].0 == x;
      assert t[i + 1].0 == x;
    }
  }

  /** The names of a list of pairs with distinct packages are as many as the pairs. */
  lemma {:induction false} DistinctNamesCardinality(t: seq<(Package, int)>)
    requires forall i, j :: 0 <= i < j < |t| ==> t[i].0 != t[j].0
    ensures |NaiveRanking(t)| == |t|
  {
    if t != [] {
      DistinctNamesCardinality(t[1..]);
      NaiveRankingUnfold(t);
    }
  }

  /**
   * The naive ranking returns exactly `k` packages of the table, and every
   * returned package's value is at least that of every package not returned.
   */
  lemma RankingSelectsTopPackages(m: MetricTable, k: nat, t: seq<(Package, int)>)
    requires IsTop(m, k, t)
    ensures NaiveRanking(t) <= m.Keys
    ensures |NaiveRanking(t)| == k
    ensures forall p, q :: p in NaiveRanking(t) && q in m && q !in NaiveRanking(t) ==> m[p] >= m[q]
  {
    DistinctNamesCardinality(t);
    forall p, q | p in NaiveRanking(t) && q in m && q !in NaiveRanking(t)
      ensures m[p] >= m[q]
    {
      var i :| 0 <= i < |t| && t[i].0 == p;
    }
  }

  /**
   * Without tied values the tie-break policy is irrelevant: any two valid
   * top-k answers name the same packages.
   */
  lemma RankingUniqueWithoutTies(m: MetricTable, k: nat, t1: seq<(Package, int)>, t2: seq<(Package, int)>)
    requires forall p, q :: p in m && q in m && p != q ==> m[p] != m[q]
    requires IsTop(m, k, t1) && IsTop(m, k, t2)
    ensures NaiveRanking(t1) == NaiveRanking(t2)
  {
    RankingSelectsTopPackages(m, k, t1);
    RankingSelectsTopPackages(m, k, t2);
    var r1, r2 := NaiveRanking(t1), NaiveRanking(t2);
    forall p | p in r1 ensures p in r2 {
      if p !in r2 {
        assert p in r1 - r2;
        ExtraHasPartner(r1, r2);
        assert false;
      }
    }
    forall p | p in r2 ensures p in r1 {
      if p !in r1 {
        assert p in r2 - r1;
        ExtraHasPartner(r2, r1);
        assert false;
      }
    }
  }

  /** Of two sets of equal size, if one has an element the other lacks, the other has one too. */
  lemma ExtraHasPartner(a: set<Package>, b: set<Package>)
    requires |a| == |b| && a - b != {}
    ensures b - a != {}
  {
    assert a == (a - b) + (a * b) && (a - b) !! (a * b);
    assert b == (b - a) + (a * b) && (b - a) !! (a * b);
    assert |b - a| == |a - b|;
  }

  /** The first pair of any non-empty valid top answer carries the largest value of the table. */
  lemma TopFirstIsMaximum(m: MetricTable, k: nat, t: seq<(Package, int)>)
    requires IsTop(m, k, t) && k >= 1
    ensures t[0].0 in m
    ensures forall q :: q in m ==> m[q] <= t[0].1
  {
    forall q | q in m ensures m[q] <= t[0].1 {
      if q in NaiveRanking(t) {
        var i :| 0 <= i < |t| && t[i].0 == q;
        if i > 0 { assert t[0].1 >= t[i].1; }
      }
    }
  }
}
