/** Stage ranks of a pipeline's steps: Kahn's algorithm over the routes, carrying the length of the
    longest path along. */
module Ranks {
  import opened Options
  import opened Graph

  datatype Route = Route(from: string, to: string)

  /** The step a route end names: the last one of that name. */
  predicate Names(names: seq<string>, name: string, i: nat) {
    i < |names| && names[i] == name && forall j :: i < j < |names| ==> names[j] != name
  }

  ghost predicate Linked(names: seq<string>, routes: seq<Route>, u: nat, v: nat) {
    exists k :: 0 <= k < |routes| && Names(names, routes[k].from, u) && Names(names, routes[k].to, v)
  }

  /** adj holds an edge for every route both of whose ends are steps, and no other. */
  ghost predicate RouteGraph(names: seq<string>, routes: seq<Route>, adj: Adj) {
    && |adj| == |names| && WellFormed(adj)
    && forall u: nat, v: nat :: Edge(adj, u, v) <==> Linked(names, routes, u, v)
  }

  /** There are no ranks exactly when the graph has a cycle; otherwise each rank is the length of the
      longest path that ends there, and no node reaches one of equal rank. */
  ghost predicate GraphRanks(adj: Adj, r: Option<seq<nat>>) {
    && (r.None? <==> Cyclic(adj))
    && (r.Some? ==>
          && |r.value| == |adj|
          && (forall v: nat :: v < |adj| ==> Longest(adj, v, r.value[v]))
          && (forall u: nat, v: nat :: u < |adj| && v < |adj| && Reaches(adj, u, v) ==> r.value[u] < r.value[v]))
  }

  /** No routes mean a plain sequence; otherwise the ranks are those of the route graph. */
  ghost predicate StageRanks(names: seq<string>, routes: seq<Route>, r: Option<seq<nat>>) {
    if routes == [] then r.Some? && |r.value| == |names| && forall i :: 0 <= i < |names| ==> r.value[i] == i
    else exists adj :: RouteGraph(names, routes, adj) && GraphRanks(adj, r)
  }

  // ---- Edges into a node from outside a set. ----

  ghost function InDegree(adj: Adj, done: set<nat>, v: nat, k: nat): nat
    requires k <= |adj|
  {
    if k == 0 then 0 else
      InDegree(adj, done, v, k - 1) + if k - 1 in done then 0 else multiset(adj[k - 1])[v]
  }

  lemma {:induction false} InDegreeDone(adj: Adj, done: set<nat>, n: nat, v: nat, k: nat)
    requires k <= |adj| && n !in done
    ensures InDegree(adj, done, v, k) == InDegree(adj, done + {n}, v, k) + if n < k then multiset(adj[n])[v] else 0
  {
    if k > 0 { InDegreeDone(adj, done, n, v, k - 1); }
  }

  lemma {:induction false} InDegreeAppend(adj: Adj, f: nat, t: nat, v: nat, k: nat)
    requires k <= |adj| && f < |adj|
    ensures InDegree(adj[f := adj[f] + [t]], {}, v, k) == InDegree(adj, {}, v, k) + if f < k && t == v then 1 else 0
  {
    if k > 0 { InDegreeAppend(adj, f, t, v, k - 1); }
  }

  lemma {:induction false} InDegreePositive(adj: Adj, done: set<nat>, v: nat, k: nat)
    requires k <= |adj|
    ensures InDegree(adj, done, v, k) > 0 <==> exists u: nat :: u < k && u !in done && v in adj[u]
  {
    if k > 0 {
      InDegreePositive(adj, done, v, k - 1);
      if InDegree(adj, done, v, k) > 0 && InDegree(adj, done, v, k - 1) == 0 {
        assert k - 1 !in done && v in adj[k - 1];
      }
    }
  }

  // ---- The algorithm's state between two dequeues. ----

  /** Every node's pending in-degree is right, and exactly the nodes with none are done or queued. */
  ghost predicate Counted(adj: Adj, indeg: seq<int>, q: seq<nat>, done: set<nat>) {
    && |indeg| == |adj|
    && (forall v :: 0 <= v < |adj| ==> indeg[v] == InDegree(adj, done, v, |adj|))
    && (forall i, j :: 0 <= i < j < |q| ==> q[i] != q[j])
    && (forall v :: v in q ==> v < |adj| && v !in done)
    && (forall v :: v in done ==> v < |adj|)
    && (forall v :: 0 <= v < |adj| ==> (indeg[v] == 0 <==> v in done || v in q))
  }

  ghost predicate SupportedBy(adj: Adj, rank: seq<nat>, done: set<nat>, v: nat)
    requires |rank| == |adj| && v < |adj|
  {
    exists u: nat :: u in done && Edge(adj, u, v) && rank[u] + 1 == rank[v]
  }

  /** Ranks account for exactly the edges out of finished nodes. */
  ghost predicate Ranked(adj: Adj, rank: seq<nat>, done: set<nat>) {
    && |rank| == |adj|
    && (forall u: nat, v: nat :: u in done && Edge(adj, u, v) ==> rank[u] < rank[v])
    && (forall v: nat {:trigger SupportedBy(adj, rank, done, v)} :: v < |adj| && rank[v] > 0 ==> SupportedBy(adj, rank, done, v))
  }

  lemma QueuedHasNoPending(adj: Adj, indeg: seq<int>, q: seq<nat>, done: set<nat>, u: nat, v: nat)
    requires Counted(adj, indeg, q, done) && (v in q || v in done) && Edge(adj, u, v)
    ensures u in done
  {
    InDegreePositive(adj, done, v, |adj|);
  }

  /** The ranks after relaxing the edges from n to `targets`. */
  predicate Raised(before: seq<nat>, after: seq<nat>, n: nat, targets: seq<nat>)
    requires n < |before|
  {
    |after| == |before| && forall v :: 0 <= v < |before| ==>
      after[v] == if v in targets && before[n] + 1 > before[v] then before[n] + 1 else before[v]
  }

  /** The in-degrees and the queue after the first j edges out of n are relaxed. */
  ghost predicate Counting(adj: Adj, indeg: seq<int>, q: seq<nat>, finished: set<nat>, n: nat, j: nat)
    requires n < |adj| && j <= |adj[n]|
  {
    && |indeg| == |adj|
    && (forall v :: 0 <= v < |adj| ==> indeg[v] == InDegree(adj, finished, v, |adj|) + multiset(adj[n][j..])[v])
    && (forall i, k :: 0 <= i < k < |q| ==> q[i] != q[k])
    && (forall v :: v in q ==> v < |adj| && v !in finished)
    && (forall v :: v in finished ==> v < |adj|)
    && (forall v :: 0 <= v < |adj| ==> (indeg[v] == 0 <==> v in finished || v in q))
  }

  lemma CountingStarts(adj: Adj, indeg: seq<int>, n: nat, queue: seq<nat>, done: set<nat>)
    requires WellFormed(adj) && n < |adj| && Counted(adj, indeg, [n] + queue, done)
    ensures Counting(adj, indeg, queue, done + {n}, n, 0) && n !in adj[n]
    ensures forall v :: v in done + {n} ==> v !in adj[n]
  {
    var all := [n] + queue;
    assert forall v :: v in all <==> v == n || v in queue;
    forall v | 0 <= v < |adj| ensures indeg[v] == InDegree(adj, done + {n}, v, |adj|) + multiset(adj[n][0..])[v] {
      InDegreeDone(adj, done, n, v, |adj|);
      assert adj[n][0..] == adj[n];
    }
    forall i, j | 0 <= i < j < |queue| ensures queue[i] != queue[j] {
      assert all[i + 1] != all[j + 1];
    }
    forall i | 0 <= i < |queue| ensures queue[i] != n {
      assert all[i + 1] != all[0];
    }
    forall v | v in done + {n} ensures v !in adj[n] {
      if v in adj[n] { QueuedHasNoPending(adj, indeg, all, done, n, v); }
    }
  }

  lemma CountingStep(adj: Adj, indeg: seq<int>, q: seq<nat>, finished: set<nat>, n: nat, j: nat)
    requires n < |adj| && j < |adj[n]| && Counting(adj, indeg, q, finished, n, j)
    requires var m := adj[n][j]; m < |adj| && m !in finished
    ensures var m := adj[n][j];
      Counting(adj, indeg[m := indeg[m] - 1], if indeg[m] == 1 then q + [m] else q, finished, n, j + 1)
  {
    var m := adj[n][j];
    assert adj[n][j..] == [m] + adj[n][j + 1..];
    assert indeg[m] > 0;
    assert m !in q;
  }

  lemma RaisedStep(before: seq<nat>, mid: seq<nat>, n: nat, targets: seq<nat>, m: nat)
    requires n < |before| && m < |before| && m != n && n !in targets && Raised(before, mid, n, targets)
    ensures Raised(before, if mid[n] + 1 > mid[m] then mid[m := mid[n] + 1] else mid, n, targets + [m])
  {
  }

  /** One edge out of n is relaxed. */
  method RelaxEdge(adj: Adj, n: nat, j: nat, ghost before: seq<nat>, rank0: seq<nat>, indeg0: seq<int>, queue: seq<nat>, ghost finished: set<nat>)
    returns (rank: seq<nat>, indeg: seq<int>, q: seq<nat>)
    requires n < |adj| == |before| && j < |adj[n]|
    requires var m := adj[n][j]; m < |adj| && m !in finished && m != n && n !in adj[n][..j]
    requires Raised(before, rank0, n, adj[n][..j]) && Counting(adj, indeg0, queue, finished, n, j)
    ensures Raised(before, rank, n, adj[n][..j + 1]) && Counting(adj, indeg, q, finished, n, j + 1)
  {
    var m := adj[n][j];
    rank, q := rank0, queue;
    if rank[n] + 1 > rank[m] {
      rank := rank[m := rank[n] + 1];
    }
    indeg := indeg0[m := indeg0[m] - 1];
    if indeg[m] == 0 {
      q := q + [m];
    }
    assert Raised(before, rank, n, adj[n][..j + 1]) by {
      assert adj[n][..j + 1] == adj[n][..j] + [m];
      RaisedStep(before, rank0, n, adj[n][..j], m);
    }
    assert Counting(adj, indeg, q, finished, n, j + 1) by {
      assert q == if indeg0[m] == 1 then queue + [m] else queue;
      CountingStep(adj, indeg0, queue, finished, n, j);
    }
  }

  /** Finishing a node relaxes its edges: ranks rise, in-degrees fall, newly free nodes are queued. */
  method Relax(adj: Adj, n: nat, rank0: seq<nat>, indeg0: seq<int>, queue: seq<nat>, ghost done: set<nat>)
    returns (rank: seq<nat>, indeg: seq<int>, q: seq<nat>)
    requires WellFormed(adj) && n < |adj| == |rank0|
    requires Counted(adj, indeg0, [n] + queue, done)
    ensures Raised(rank0, rank, n, adj[n])
    ensures Counted(adj, indeg, q, done + {n})
  {
    rank, indeg, q := rank0, indeg0, queue;
    CountingStarts(adj, indeg, n, queue, done);
    for j := 0 to |adj[n]|
      invariant Raised(rank0, rank, n, adj[n][..j])
      invariant Counting(adj, indeg, q, done + {n}, n, j)
    {
      assert adj[n][j] in adj[n] && n !in adj[n][..j];
      rank, indeg, q := RelaxEdge(adj, n, j, rank0, rank, indeg, q, done + {n});
    }
    assert adj[n][..|adj[n]|] == adj[n];
    CountingEnds(adj, indeg, q, n, done + {n});
  }

  lemma CountingEnds(adj: Adj, indeg: seq<int>, q: seq<nat>, n: nat, finished: set<nat>)
    requires n < |adj| && Counting(adj, indeg, q, finished, n, |adj[n]|)
    ensures Counted(adj, indeg, q, finished)
  {
    assert multiset(adj[n][|adj[n]|..]) == multiset{};
  }

  lemma RaiseKeepsRanked(adj: Adj, rank: seq<nat>, r: seq<nat>, n: nat, done: set<nat>)
    requires WellFormed(adj) && n < |adj| && n !in done && Ranked(adj, rank, done)
    requires forall v :: v in done + {n} ==> v < |adj| && v !in adj[n]
    requires Raised(rank, r, n, adj[n])
    ensures Ranked(adj, r, done + {n})
  {
    forall v: nat | v < |adj| && r[v] > 0
      ensures SupportedBy(adj, r, done + {n}, v)
    {
      if r[v] != rank[v] {
        assert n in done + {n} && Edge(adj, n, v) && r[n] + 1 == r[v];
      } else {
        assert SupportedBy(adj, rank, done, v);
        var u: nat :| u in done && Edge(adj, u, v) && rank[u] + 1 == rank[v];
        assert u in done + {n} && r[u] == rank[u];
      }
    }
    forall u: nat, v: nat | u in done + {n} && Edge(adj, u, v) ensures r[u] < r[v] {
      assert r[u] == rank[u];
    }
  }

  /** One turn of Kahn's loop. */
  method FinishNode(adj: Adj, n: nat, rank0: seq<nat>, indeg0: seq<int>, queue: seq<nat>, ghost done: set<nat>)
    returns (rank: seq<nat>, indeg: seq<int>, q: seq<nat>)
    requires WellFormed(adj) && n < |adj| && n !in done
    requires Counted(adj, indeg0, [n] + queue, done) && Ranked(adj, rank0, done)
    ensures Counted(adj, indeg, q, done + {n}) && Ranked(adj, rank, done + {n})
  {
    CountingStarts(adj, indeg0, n, queue, done);
    rank, indeg, q := Relax(adj, n, rank0, indeg0, queue, done);
    RaiseKeepsRanked(adj, rank0, rank, n, done);
  }

  lemma UpTo(n: nat) returns (s: set<nat>)
    ensures |s| == n && forall v: nat :: v in s <==> v < n
  {
    s := {};
    if n > 0 {
      s := UpTo(n - 1);
      s := s + {n - 1};
    }
  }

  /** The nodes nothing leads to, in order. */
  method FreeNodes(adj: Adj, indeg: seq<int>) returns (q: seq<nat>)
    requires |indeg| == |adj| && forall v :: 0 <= v < |adj| ==> indeg[v] == InDegree(adj, {}, v, |adj|)
    ensures Counted(adj, indeg, q, {})
  {
    q := [];
    for i := 0 to |adj|
      invariant forall v :: v in q <==> 0 <= v < i && indeg[v] == 0
      invariant forall j, k :: 0 <= j < k < |q| ==> q[j] != q[k]
    {
      if indeg[i] == 0 {
        q := q + [i];
      }
    }
  }

  /** Kahn's loop: every node is finished that does not wait, directly or not, for a cycle. */
  method Drain(adj: Adj, inDegrees: seq<int>, free: seq<nat>, ghost all: set<nat>)
    returns (rank: seq<nat>, seen: nat, ghost indeg: seq<int>, ghost done: set<nat>)
    requires WellFormed(adj) && Counted(adj, inDegrees, free, {})
    requires forall v: nat :: v in all <==> v < |adj|
    ensures seen == |done| && done <= all
    ensures Counted(adj, indeg, [], done) && Ranked(adj, rank, done)
  {
    rank, seen, done := seq(|adj|, _ => 0), 0, {};
    var degrees, q := inDegrees, free;
    assert Ranked(adj, rank, {});
    while q != []
      invariant seen == |done| && done <= all
      invariant Counted(adj, degrees, q, done)
      invariant Ranked(adj, rank, done)
      decreases all - done
    {
      var n := q[0];
      assert q == [n] + q[1..] && n in q;
      seen := seen + 1;
      rank, degrees, q := FinishNode(adj, n, rank, degrees, q[1..], done);
      done := done + {n};
    }
    indeg := degrees;
  }

  /** No ranks exactly when some routes form a cycle, otherwise a ranking. */
  method Kahn(adj: Adj, inDegrees: seq<int>) returns (r: Option<seq<nat>>)
    requires WellFormed(adj) && |inDegrees| == |adj|
    requires forall v :: 0 <= v < |adj| ==> inDegrees[v] == InDegree(adj, {}, v, |adj|)
    ensures r.None? <==> Cyclic(adj)
    ensures r.Some? ==> Ranking(adj, r.value)
  {
    var free: seq<nat> := FreeNodes(adj, inDegrees);
    ghost var all := UpTo(|adj|);
    var rank, seen, indeg, done := Drain(adj, inDegrees, free, all);
    ghost var left := all - done;
    assert done + left == all;
    if seen != |adj| {
      UnfinishedWait(adj, indeg, done, left);
      WaitingIsCyclic(adj, left);
      return None;
    }
    assert |left| == 0;
    RankedIsRanking(adj, rank, done);
    RankingIsLongest(adj, rank);
    return Some(rank);
  }

  lemma UnfinishedWait(adj: Adj, indeg: seq<int>, done: set<nat>, left: set<nat>)
    requires WellFormed(adj) && Counted(adj, indeg, [], done)
    requires forall v: nat :: v in left <==> v < |adj| && v !in done
    ensures Waiting(adj, left)
  {
    forall v | v in left ensures Preceded(adj, left, v) {
      InDegreePositive(adj, done, v, |adj|);
      var u: nat :| u < |adj| && u !in done && v in adj[u];
      assert u in left && Edge(adj, u, v);
    }
  }

  lemma RankedIsRanking(adj: Adj, rank: seq<nat>, done: set<nat>)
    requires Ranked(adj, rank, done) && forall v: nat :: v < |adj| ==> v in done
    ensures Ranking(adj, rank)
  {
    forall v: nat | v < |adj| && rank[v] > 0 ensures Supported(adj, rank, v) {
      assert SupportedBy(adj, rank, done, v);
    }
  }

  method IndexSteps(names: seq<string>) returns (idx: map<string, nat>)
    ensures forall name :: name in idx <==> name in names
    ensures forall name :: name in idx ==> Names(names, name, idx[name])
  {
    idx := map[];
    for i := 0 to |names|
      invariant forall name :: name in idx <==> name in names[..i]
      invariant forall name :: name in idx ==> Names(names[..i], name, idx[name])
    {
      assert names[..i + 1] == names[..i] + [names[i]];
      idx := idx[names[i] := i];
    }
    assert names[..|names|] == names;
  }

  lemma LinkedStep(names: seq<string>, routes: seq<Route>, k: nat, u: nat, v: nat)
    requires k < |routes|
    ensures Linked(names, routes[..k + 1], u, v) <==>
      Linked(names, routes[..k], u, v) || (Names(names, routes[k].from, u) && Names(names, routes[k].to, v))
  {
    var now, next := routes[..k], routes[..k + 1];
    if Linked(names, now, u, v) {
      var j :| 0 <= j < k && Names(names, now[j].from, u) && Names(names, now[j].to, v);
      assert next[j] == now[j];
    }
    if Linked(names, next, u, v) {
      var j :| 0 <= j < |next| && Names(names, next[j].from, u) && Names(names, next[j].to, v);
      if j < k { assert now[j] == next[j]; }
    }
    assert next[k] == routes[k];
  }

  method BuildGraph(names: seq<string>, routes: seq<Route>) returns (adj: Adj, indeg: seq<int>)
    ensures RouteGraph(names, routes, adj)
    ensures |indeg| == |adj| && forall v :: 0 <= v < |adj| ==> indeg[v] == InDegree(adj, {}, v, |adj|)
  {
    var idx := IndexSteps(names);
    adj, indeg := seq(|names|, _ => []), seq(|names|, _ => 0);
    forall v | 0 <= v < |adj| ensures InDegree(adj, {}, v, |adj|) == 0 { InDegreePositive(adj, {}, v, |adj|); }
    for k := 0 to |routes|
      invariant RouteGraph(names, routes[..k], adj)
      invariant |indeg| == |adj| && forall v :: 0 <= v < |adj| ==> indeg[v] == InDegree(adj, {}, v, |adj|)
    {
      var r := routes[k];
      forall u: nat, v: nat ensures Linked(names, routes[..k + 1], u, v) <==>
        Linked(names, routes[..k], u, v) || (Names(names, r.from, u) && Names(names, r.to, v))
      {
        LinkedStep(names, routes, k, u, v);
      }
      if r.from in idx && r.to in idx {
        var f, t := idx[r.from], idx[r.to];
        ghost var before := adj;
        forall v | 0 <= v < |adj| { InDegreeAppend(adj, f, t, v, |adj|); }
        adj := adj[f := adj[f] + [t]];
        indeg := indeg[t := indeg[t] + 1];
        forall u: nat, v: nat ensures Edge(adj, u, v) <==> Edge(before, u, v) || (u == f && v == t) {}
      }
    }
    assert routes[..|routes|] == routes;
  }

  /** The stage of every step of a pipeline. */
  method TuiRanks(names: seq<string>, routes: seq<Route>) returns (r: Option<seq<nat>>)
    ensures StageRanks(names, routes, r)
  {
    if |routes| == 0 {
      return Some(seq(|names|, i => i));
    }
    var adj, indeg := BuildGraph(names, routes);
    r := Kahn(adj, indeg);
    if r.Some? { RankingIsLongest(adj, r.value); }
  }

  /** For the ranker's own answer on a pipeline with routes: steps share a stage precisely when they can
      run concurrently, exactly when every step leads straight to every step of the next stage. */
  lemma StagesAreConcurrencyExactly(adj: Adj, rank: seq<nat>)
    requires GraphRanks(adj, Some(rank))
    ensures RankIsConcurrency(adj, rank) <==> Layered(adj, rank)
  {
    LongestIsRanking(adj, rank);
    RankIsConcurrencyExactly(adj, rank);
  }

  /** A name that several steps have stands for the last of them. */
  lemma LastOfName(names: seq<string>, name: string)
    ensures name in names <==> exists i :: Names(names, name, i)
    ensures forall i, j :: Names(names, name, i) && 0 <= j < |names| && names[j] == name ==> j <= i
  {
    if name in names {
      assert names[..|names|] == names;
      var i := LastAt(names, name, |names|);
    }
  }

  lemma {:induction false} LastAt(names: seq<string>, name: string, n: nat) returns (i: nat)
    requires n <= |names| && name in names[..n] && forall j :: n <= j < |names| ==> names[j] != name
    ensures Names(names, name, i)
  {
    if names[n - 1] == name {
      i := n - 1;
    } else {
      assert names[..n] == names[..n - 1] + [names[n - 1]];
      i := LastAt(names, name, n - 1);
    }
  }
}
