/** Directed graphs: ways through them, and when replacing the links of one node keeps them free of cycles. */
module Graphs {

  /** The links of each node. */
  type Graph<N> = map<N, set<N>>

  /** Every link leads to a smaller rank. */
  ghost predicate Ranks<N(!new)>(g: Graph<N>, rank: N -> nat) {
    forall n, m :: n in g && m in g[n] ==> rank(m) < rank(n)
  }

  ghost predicate Acyclic<N(!new)>(g: Graph<N>) {
    exists rank: N -> nat :: Ranks(g, rank)
  }

  predicate IsPath<N(==)>(g: Graph<N>, path: seq<N>) {
    forall i :: 0 <= i < |path| - 1 ==> path[i] in g && path[i + 1] in g[path[i]]
  }

  /** A way from one of the nodes `from` to `n`. */
  predicate IsWay<N(==)>(g: Graph<N>, from: set<N>, n: N, path: seq<N>) {
    |path| > 0 && path[0] in from && path[|path| - 1] == n && IsPath(g, path)
  }

  ghost predicate Leads<N(!new)>(g: Graph<N>, from: set<N>, n: N) {
    exists path :: IsWay(g, from, n, path)
  }

  /** `g` has at least the links of `h`. */
  predicate Extends<N(!new)>(g: Graph<N>, h: Graph<N>) {
    forall n :: n in h ==> n in g && h[n] <= g[n]
  }

  lemma LeadsInMore<N(!new)>(g: Graph<N>, h: Graph<N>, from: set<N>, n: N)
    requires Extends(g, h) && !Leads(g, from, n)
    ensures !Leads(h, from, n)
  {
    forall path | IsWay(h, from, n, path)
      ensures IsWay(g, from, n, path)
    {
    }
  }

  /** One link more at the beginning. */
  lemma LeadsOn<N(!new)>(g: Graph<N>, m: N, n: N)
    requires m in g && Leads(g, g[m], n)
    ensures Leads(g, {m}, n)
  {
    var path :| IsWay(g, g[m], n, path);
    var longer := [m] + path;
    forall i | 0 <= i < |longer| - 1
      ensures longer[i] in g && longer[i + 1] in g[longer[i]]
    {
      assert i > 0 ==> longer[i] == path[i - 1] && longer[i + 1] == path[i];
    }
    assert IsWay(g, {m}, n, longer);
  }

  /** Whatever the links of `n` become, ranks do not grow along the ways to it that were there before. */
  lemma {:induction false} RankFalls<N(!new)>(g: Graph<N>, n: N, links: set<N>, rank: N -> nat, path: seq<N>)
    requires Ranks(g[n := links], rank)
    requires |path| > 0 && path[|path| - 1] == n && IsPath(g, path)
    ensures rank(n) <= rank(path[0])
    decreases |path|
  {
    if path[0] != n {
      assert path[0] in g && path[1] in g[path[0]];
      forall i | 0 <= i < |path[1..]| - 1
        ensures path[1..][i] in g && path[1..][i + 1] in g[path[1..][i]]
      {
        assert path[1..][i] == path[i + 1] && path[1..][i + 1] == path[i + 2];
      }
      RankFalls(g, n, links, rank, path[1..]);
      assert path[1] in g[n := links][path[0]];
    }
  }

  /** The rank of whatever leads to `n` is lifted above the rest. */
  ghost function Lift<N(!new)>(g: Graph<N>, n: N, rank: N -> nat, top: nat, m: N): nat {
    rank(m) + if m == n || Leads(g, {m}, n) then top else 0
  }

  lemma LiftFalls<N(!new)>(g: Graph<N>, n: N, rank: N -> nat, top: nat, l: N, m: N)
    requires Ranks(g, rank) && l in g && m in g[l]
    ensures Lift(g, n, rank, top, m) < Lift(g, n, rank, top, l)
  {
    if m == n || Leads(g, {m}, n) {
      if m == n {
        assert IsWay(g, g[l], n, [n]);
      } else {
        var path :| IsWay(g, {m}, n, path);
        assert IsWay(g, g[l], n, path);
      }
      LeadsOn(g, l, n);
    }
  }

  lemma LinksAreNotLifted<N(!new)>(g: Graph<N>, n: N, links: set<N>, rank: N -> nat, top: nat, m: N)
    requires !Leads(g, links, n) && m in links && rank(m) < top
    ensures Lift(g, n, rank, top, m) < Lift(g, n, rank, top, n)
  {
    assert m == n ==> IsWay(g, links, n, [n]);
    forall path | IsWay(g, {m}, n, path)
      ensures IsWay(g, links, n, path)
    {
    }
  }

  lemma {:induction false} RankBound<N(!new)>(rank: N -> nat, nodes: set<N>) returns (bound: nat)
    ensures forall n :: n in nodes ==> rank(n) < bound
    decreases |nodes|
  {
    if nodes == {} {
      return 0;
    }
    var n :| n in nodes;
    var rest := RankBound(rank, nodes - {n});
    bound := if rest <= rank(n) then rank(n) + 1 else rest;
  }

  /** A graph without cycles stays so when a node gets new links, if and only if none of them leads back to it. */
  lemma AcyclicAgainExactly<N(!new)>(g: Graph<N>, n: N, links: set<N>)
    requires Acyclic(g)
    ensures Acyclic(g[n := links]) <==> !Leads(g, links, n)
  {
    if Leads(g, links, n) {
      if Acyclic(g[n := links]) {
        var rank: N -> nat :| Ranks(g[n := links], rank);
        var path :| IsWay(g, links, n, path);
        assert path[0] in g[n := links][n];
        RankFalls(g, n, links, rank, path);
      }
    } else {
      var rank: N -> nat :| Ranks(g, rank);
      var top := RankBound(rank, links);
      var lifted := m => Lift(g, n, rank, top, m);
      forall l, m | l in g[n := links] && m in g[n := links][l]
        ensures lifted(m) < lifted(l)
      {
        if l == n {
          LinksAreNotLifted(g, n, links, rank, top, m);
        } else {
          LiftFalls(g, n, rank, top, l, m);
        }
      }
      assert Ranks(g[n := links], lifted);
    }
  }

  /** Within a closed part of a graph, nothing leads out of it. */
  lemma {:induction false} StaysInside<N(!new)>(g: Graph<N>, path: seq<N>)
    requires forall n :: n in g ==> g[n] <= g.Keys
    requires |path| > 0 && path[0] in g && IsPath(g, path)
    ensures path[|path| - 1] in g
    decreases |path|
  {
    if |path| > 1 {
      var init := path[..|path| - 1];
      assert forall i {:trigger init[i]} :: 0 <= i < |init| ==> init[i] == path[i];
      assert IsPath(g, init);
      StaysInside(g, init);
      assert path[|path| - 2] in g && path[|path| - 2 + 1] in g[path[|path| - 2]];
    }
  }

  lemma OutsideIsNotLedTo<N(!new)>(g: Graph<N>, from: set<N>, n: N)
    requires (forall m :: m in g ==> g[m] <= g.Keys) && from <= g.Keys && n !in g
    ensures !Leads(g, from, n)
  {
    if Leads(g, from, n) {
      var path :| IsWay(g, from, n, path);
      StaysInside(g, path);
    }
  }
}
