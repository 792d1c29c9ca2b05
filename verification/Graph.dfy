/** Directed graphs as adjacency lists: paths, cycles, longest paths. */
module Graph {
  type Adj = seq<seq<nat>>

  predicate WellFormed(adj: Adj) {
    forall u: nat, v: nat :: u < |adj| && v in adj[u] ==> v < |adj|
  }

  predicate Edge(adj: Adj, u: nat, v: nat) { u < |adj| && v < |adj| && v in adj[u] }

  predicate Path(adj: Adj, p: seq<nat>) {
    && p != []
    && (forall i :: 0 <= i < |p| ==> p[i] < |adj|)
    && (forall i :: 0 <= i < |p| - 1 ==> Edge(adj, p[i], p[i + 1]))
  }

  predicate EndsAt(p: seq<nat>, v: nat) { p != [] && p[|p| - 1] == v }

  ghost predicate Cyclic(adj: Adj) {
    exists p :: Path(adj, p) && |p| > 1 && EndsAt(p, p[0])
  }

  /** The longest path that ends at v has `steps` edges. */
  ghost predicate Longest(adj: Adj, v: nat, steps: nat) {
    && (exists p :: Path(adj, p) && EndsAt(p, v) && |p| == steps + 1)
    && (forall p :: Path(adj, p) && EndsAt(p, v) ==> |p| <= steps + 1)
  }

  ghost predicate Reaches(adj: Adj, u: nat, v: nat) {
    exists p :: Path(adj, p) && |p| > 1 && p[0] == u && EndsAt(p, v)
  }

  /** Some predecessor's rank is just below v's. */
  ghost predicate Supported(adj: Adj, rank: seq<nat>, v: nat)
    requires |rank| == |adj| && v < |adj|
  {
    exists u: nat :: Edge(adj, u, v) && rank[u] + 1 == rank[v]
  }

  /** Every edge goes up, and every positive rank is one above some predecessor's. */
  ghost predicate Ranking(adj: Adj, rank: seq<nat>) {
    && |rank| == |adj|
    && (forall u: nat, v: nat :: Edge(adj, u, v) ==> rank[u] < rank[v])
    && (forall v: nat {:trigger Supported(adj, rank, v)} :: v < |rank| && rank[v] > 0 ==> Supported(adj, rank, v))
  }

  lemma {:induction false} RankClimbs(adj: Adj, rank: seq<nat>, p: seq<nat>, v: nat)
    requires Ranking(adj, rank) && Path(adj, p) && EndsAt(p, v)
    ensures rank[p[0]] + |p| - 1 <= rank[v]
    decreases |p|
  {
    if |p| > 1 {
      var q := p[..|p| - 1];
      assert forall i :: 0 <= i < |q| ==> q[i] == p[i];
      RankClimbs(adj, rank, q, q[|q| - 1]);
      assert Edge(adj, p[|p| - 2], p[|p| - 1]);
    }
  }

  lemma {:induction false} RankAttained(adj: Adj, rank: seq<nat>, v: nat) returns (p: seq<nat>)
    requires Ranking(adj, rank) && v < |adj|
    ensures Path(adj, p) && EndsAt(p, v) && |p| == rank[v] + 1
    decreases rank[v]
  {
    if rank[v] == 0 {
      p := [v];
    } else {
      assert Supported(adj, rank, v);
      var u: nat :| Edge(adj, u, v) && rank[u] + 1 == rank[v];
      var q := RankAttained(adj, rank, u);
      p := q + [v];
      forall i | 0 <= i < |p| - 1 ensures Edge(adj, p[i], p[i + 1]) {
        if i < |q| - 1 { assert p[i] == q[i] && p[i + 1] == q[i + 1]; }
      }
    }
  }

  /** A ranking is the longest-path length of every node, and only acyclic graphs have one. */
  lemma RankingIsLongest(adj: Adj, rank: seq<nat>)
    requires Ranking(adj, rank)
    ensures !Cyclic(adj)
    ensures forall v: nat :: v < |adj| ==> Longest(adj, v, rank[v])
    ensures forall u: nat, v: nat :: u < |adj| && v < |adj| && Reaches(adj, u, v) ==> rank[u] < rank[v]
  {
    forall p, v: nat | Path(adj, p) && EndsAt(p, v) ensures rank[p[0]] + |p| - 1 <= rank[v] {
      RankClimbs(adj, rank, p, v);
    }
    forall v: nat | v < |adj| ensures Longest(adj, v, rank[v]) {
      var _ := RankAttained(adj, rank, v);
    }
  }

  // ---- Sharing a rank and running concurrently. ----

  ghost predicate Concurrent(adj: Adj, u: nat, v: nat) { !Reaches(adj, u, v) && !Reaches(adj, v, u) }

  /** Two nodes share a rank precisely when neither can reach the other. */
  ghost predicate RankIsConcurrency(adj: Adj, rank: seq<nat>)
    requires |rank| == |adj|
  {
    forall u: nat, v: nat :: u < |adj| && v < |adj| ==> (rank[u] == rank[v] <==> Concurrent(adj, u, v))
  }

  /** Every node leads straight to every node of the next rank. */
  predicate Layered(adj: Adj, rank: seq<nat>)
    requires |rank| == |adj|
  {
    forall u: nat, v: nat :: u < |adj| && v < |adj| && rank[v] == rank[u] + 1 ==> Edge(adj, u, v)
  }

  lemma AppendEdge(adj: Adj, p: seq<nat>, w: nat, v: nat)
    requires Path(adj, p) && EndsAt(p, w) && Edge(adj, w, v)
    ensures Path(adj, p + [v]) && EndsAt(p + [v], v) && (p + [v])[0] == p[0]
  {
    var q := p + [v];
    forall i | 0 <= i < |q| - 1 ensures Edge(adj, q[i], q[i + 1]) {
      if i < |p| - 1 { assert q[i] == p[i] && q[i + 1] == p[i + 1]; }
    }
  }

  lemma {:induction false} LayersClimb(adj: Adj, rank: seq<nat>, u: nat, v: nat) returns (p: seq<nat>)
    requires Ranking(adj, rank) && Layered(adj, rank) && u < |adj| && v < |adj| && rank[u] < rank[v]
    ensures Path(adj, p) && |p| > 1 && p[0] == u && EndsAt(p, v)
    decreases rank[v]
  {
    if rank[v] == rank[u] + 1 {
      p := [u, v];
    } else {
      assert Supported(adj, rank, v);
      var w: nat :| Edge(adj, w, v) && rank[w] + 1 == rank[v];
      var q := LayersClimb(adj, rank, u, w);
      AppendEdge(adj, q, w, v);
      p := q + [v];
    }
  }

  lemma NextRankEdge(adj: Adj, rank: seq<nat>, u: nat, v: nat)
    requires Ranking(adj, rank) && u < |adj| && v < |adj| && rank[v] == rank[u] + 1 && Reaches(adj, u, v)
    ensures Edge(adj, u, v)
  {
    var p :| Path(adj, p) && |p| > 1 && p[0] == u && EndsAt(p, v);
    RankClimbs(adj, rank, p, v);
    assert Edge(adj, p[0], p[0 + 1]);
  }

  /** Sharing a rank means running concurrently, for every two nodes, exactly when every node leads
      straight to every node of the next rank. */
  lemma RankIsConcurrencyExactly(adj: Adj, rank: seq<nat>)
    requires Ranking(adj, rank)
    ensures RankIsConcurrency(adj, rank) <==> Layered(adj, rank)
  {
    RankingIsLongest(adj, rank);
    if Layered(adj, rank) {
      forall u: nat, v: nat | u < |adj| && v < |adj| ensures rank[u] == rank[v] <==> Concurrent(adj, u, v) {
        if rank[u] < rank[v] {
          var _ := LayersClimb(adj, rank, u, v);
        } else if rank[v] < rank[u] {
          var _ := LayersClimb(adj, rank, v, u);
        }
      }
    }
    if RankIsConcurrency(adj, rank) {
      forall u: nat, v: nat | u < |adj| && v < |adj| && rank[v] == rank[u] + 1 ensures Edge(adj, u, v) {
        assert !Concurrent(adj, u, v);
        NextRankEdge(adj, rank, u, v);
      }
    }
  }

  lemma DropLastNode(adj: Adj, p: seq<nat>) returns (u: nat)
    requires Path(adj, p) && |p| > 1
    ensures Path(adj, p[..|p| - 1]) && EndsAt(p[..|p| - 1], u) && Edge(adj, u, p[|p| - 1])
  {
    var q := p[..|p| - 1];
    u := p[|p| - 2];
    forall i | 0 <= i < |q| - 1 ensures Edge(adj, q[i], q[i + 1]) { assert Edge(adj, p[i], p[i + 1]); }
    assert Edge(adj, u, p[|p| - 2 + 1]);
  }

  lemma EdgeRises(adj: Adj, u: nat, v: nat, a: nat, b: nat)
    requires Edge(adj, u, v) && Longest(adj, u, a) && Longest(adj, v, b)
    ensures a < b
  {
    var p :| Path(adj, p) && EndsAt(p, u) && |p| == a + 1;
    AppendEdge(adj, p, u, v);
    assert |p + [v]| <= b + 1;
  }

  lemma LongestHasPredecessor(adj: Adj, v: nat, b: nat) returns (u: nat, q: seq<nat>)
    requires Longest(adj, v, b) && b > 0
    ensures Edge(adj, u, v) && Path(adj, q) && EndsAt(q, u) && |q| == b
  {
    var p :| Path(adj, p) && EndsAt(p, v) && |p| == b + 1;
    u := DropLastNode(adj, p);
    q := p[..|p| - 1];
  }

  /** Longest-path lengths are a ranking. */
  lemma LongestIsRanking(adj: Adj, rank: seq<nat>)
    requires |rank| == |adj| && forall v: nat :: v < |adj| ==> Longest(adj, v, rank[v])
    ensures Ranking(adj, rank)
  {
    forall u: nat, v: nat | Edge(adj, u, v) ensures rank[u] < rank[v] {
      EdgeRises(adj, u, v, rank[u], rank[v]);
    }
    forall v: nat | v < |rank| && rank[v] > 0 ensures Supported(adj, rank, v) {
      var u, q := LongestHasPredecessor(adj, v, rank[v]);
      assert Longest(adj, u, rank[u]) && |q| <= rank[u] + 1;
    }
  }

  /** Not every graph is layered: with one edge among three nodes, its end and the loose node cannot
      reach each other and differ in rank. */
  lemma UnequalRanksUnreachable()
    ensures var adj: Adj := [[1], [], []];
      Ranking(adj, [0, 1, 0]) && Concurrent(adj, 1, 2) && !Layered(adj, [0, 1, 0])
  {
    var adj: Adj := [[1], [], []];
    assert Edge(adj, 0, 1);
    assert Supported(adj, [0, 1, 0], 1);
    forall p | Path(adj, p) && |p| > 1 ensures p[0] == 0 {
      assert Edge(adj, p[0], p[0 + 1]);
    }
    assert !Edge(adj, 2, 1);
  }

  // ---- Nodes that all wait for each other contain a cycle. ----

  ghost predicate Preceded(adj: Adj, s: set<nat>, v: nat) { exists u :: u in s && Edge(adj, u, v) }

  ghost predicate Waiting(adj: Adj, s: set<nat>) {
    && (forall v :: v in s ==> v < |adj|)
    && (forall v {:trigger Preceded(adj, s, v)} :: v in s ==> Preceded(adj, s, v))
  }

  lemma PrependEdge(adj: Adj, u: nat, q: seq<nat>)
    requires Path(adj, q) && Edge(adj, u, q[0])
    ensures Path(adj, [u] + q) && EndsAt([u] + q, q[|q| - 1])
  {
    var p := [u] + q;
    forall i | 0 <= i < |p| - 1 ensures Edge(adj, p[i], p[i + 1]) {
      if i > 0 { assert p[i] == q[i - 1] && p[i + 1] == q[i]; }
    }
  }

  lemma {:induction false} BackwardWalk(adj: Adj, s: set<nat>, v: nat, steps: nat) returns (p: seq<nat>)
    requires Waiting(adj, s) && v in s
    ensures Path(adj, p) && |p| == steps + 1 && EndsAt(p, v) && forall i :: 0 <= i < |p| ==> p[i] in s
    decreases steps
  {
    if steps == 0 {
      p := [v];
    } else {
      var q := BackwardWalk(adj, s, v, steps - 1);
      assert q[0] in s && Preceded(adj, s, q[0]);
      var u :| u in s && Edge(adj, u, q[0]);
      PrependEdge(adj, u, q);
      p := [u] + q;
    }
  }

  /** More entries than values: two entries are equal. */
  lemma {:induction false} Pigeonhole(p: seq<nat>, s: set<nat>) returns (i: nat, j: nat)
    requires |p| > |s| && forall k :: 0 <= k < |p| ==> p[k] in s
    ensures i < j < |p| && p[i] == p[j]
    decreases |p|
  {
    var last := |p| - 1;
    if k: nat :| k < last && p[k] == p[last] {
      i, j := k, last;
    } else {
      assert |s - {p[last]}| == |s| - 1;
      i, j := Pigeonhole(p[..last], s - {p[last]});
    }
  }

  lemma WaitingIsCyclic(adj: Adj, s: set<nat>)
    requires Waiting(adj, s) && s != {}
    ensures Cyclic(adj)
  {
    var v :| v in s;
    var p := BackwardWalk(adj, s, v, |s|);
    var i, j := Pigeonhole(p, s);
    SubPath(adj, p, i, j);
  }

  lemma SubPath(adj: Adj, p: seq<nat>, i: nat, j: nat)
    requires Path(adj, p) && i < j < |p|
    ensures Path(adj, p[i..j + 1]) && p[i..j + 1][0] == p[i] && EndsAt(p[i..j + 1], p[j])
  {
    var c := p[i..j + 1];
    forall k | 0 <= k < |c| - 1 ensures Edge(adj, c[k], c[k + 1]) {
      assert Edge(adj, p[i + k], p[i + k + 1]);
    }
  }
}
