/**
 * The graph and the per-node queries shared by both worm simulations.
 *
 * Nodes are the indices 0 .. n-1, in the order the graph yields them.
 * `adj[v]` lists v's neighbours in the order neighbour lookup yields them.
 * A run reads the graph and never changes it.
 */
module Network {

  /** Adjacency lists of an undirected graph, one list per node. */
  type Adjacency = seq<seq<nat>>

  /**
   * The random source, seen through its comparisons: `draws(k)` is the outcome of
   * the k-th call `random.random() < probability`, for whichever probability that
   * call compares against.
   */
  type Draws = nat -> bool

  /** Looking up a node the graph does not have. */
  datatype Error = UnknownNode(node: nat)

  datatype Result<T> = Ok(value: T) | Err(error: Error)

  /** Every listed neighbour is a node of the graph. */
  predicate WellFormed(adj: Adjacency)
  {
    forall v, j :: 0 <= v < |adj| && 0 <= j < |adj[v]| ==> adj[v][j] < |adj|
  }

  /** Every element of `xs` is one of the nodes 0 .. n-1. */
  predicate AreNodes(n: nat, xs: seq<nat>)
  {
    forall i :: 0 <= i < |xs| ==> xs[i] < n
  }

  /** A prefix of a list of nodes is a list of nodes. */
  lemma AreNodesPrefix(n: nat, xs: seq<nat>, k: nat)
    requires AreNodes(n, xs) && k <= |xs|
    ensures AreNodes(n, xs[..k])
  {
    forall i | 0 <= i < k ensures xs[..k][i] < n {
      assert xs[..k][i] == xs[i];
    }
  }

  /** No draw at position `from` or later succeeds. */
  ghost predicate FailsFrom(draws: Draws, from: nat)
  {
    forall k: nat :: from <= k ==> !draws(k)
  }

  /** Every draw succeeds. */
  ghost predicate AlwaysSucceeds(draws: Draws)
  {
    forall k: nat :: draws(k)
  }

  /**
   * The nodes whose flag is set, in node order: the list comprehension
   * over the node data that both scripts use to collect infected or
   * inoculated nodes.
   */
  function Flagged(flags: seq<bool>): (r: seq<nat>)
    ensures |r| <= |flags|
    ensures forall v: nat {:trigger v in r} :: v in r <==> v < |flags| && flags[v]
    ensures AreNodes(|flags|, r)
  {
    if flags == [] then []
    else
      var last := |flags| - 1;
      var front := Flagged(flags[..last]);
      assert forall i :: 0 <= i < |front| ==> front[i] in front;
      front + if flags[last] then [last] else []
  }

  /** The list is in node order, so it names no node twice. */
  lemma {:induction false} FlaggedInOrder(flags: seq<bool>)
    ensures forall i, j :: 0 <= i < j < |Flagged(flags)| ==> Flagged(flags)[i] < Flagged(flags)[j]
  {
    if flags != [] {
      var last := |flags| - 1;
      FlaggedInOrder(flags[..last]);
    }
  }

  /** With a single flag set, the list names that node alone. */
  lemma {:induction false} FlaggedOnly(flags: seq<bool>, node: nat)
    requires node < |flags|
    requires forall v :: 0 <= v < |flags| ==> flags[v] == (v == node)
    ensures Flagged(flags) == [node]
  {
    var last := |flags| - 1;
    if node == last {
      CountEmpty(flags[..last]);
    } else {
      FlaggedOnly(flags[..last], node);
    }
  }

  /** The length of `Flagged(flags)`: how many nodes have their flag set. */
  function Count(flags: seq<bool>): nat
  {
    |Flagged(flags)|
  }

  /** `v` is a neighbour of at least one node of `sources`. */
  predicate NeighbourOfSome(adj: Adjacency, sources: seq<nat>, v: nat)
    requires AreNodes(|adj|, sources)
  {
    exists i :: 0 <= i < |sources| && v in adj[sources[i]]
  }

  /** `v` is a neighbour of at least one node whose flag is set. */
  predicate NeighbourOfFlagged(adj: Adjacency, flags: seq<bool>, v: nat)
    requires |flags| == |adj|
  {
    exists s :: 0 <= s < |adj| && flags[s] && v in adj[s]
  }

  /**
   * The neighbours the nested loops visit, in visiting order: for each source
   * in turn, each of its neighbours in adjacency order.
   */
  function Visits(adj: Adjacency, sources: seq<nat>): (r: seq<nat>)
    requires AreNodes(|adj|, sources)
    ensures forall v: nat :: v in r <==> NeighbourOfSome(adj, sources, v)
    ensures WellFormed(adj) ==> AreNodes(|adj|, r)
  {
    if sources == [] then []
    else
      var last := |sources| - 1;
      var front := Visits(adj, sources[..last]);
      assert forall v: nat :: NeighbourOfSome(adj, sources, v) <==>
        NeighbourOfSome(adj, sources[..last], v) || v in adj[sources[last]] by {
        forall v: nat | NeighbourOfSome(adj, sources, v)
          ensures NeighbourOfSome(adj, sources[..last], v) || v in adj[sources[last]]
        {
          var i :| 0 <= i < |sources| && v in adj[sources[i]];
          if i < last {
            assert sources[..last][i] == sources[i];
          }
        }
        forall v: nat | NeighbourOfSome(adj, sources[..last], v)
          ensures NeighbourOfSome(adj, sources, v)
        {
          var i :| 0 <= i < last && v in adj[sources[..last][i]];
          assert sources[..last][i] == sources[i];
        }
      }
      front + adj[sources[last]]
  }

  /**
   * The sources of a period are the snapshot `Flagged(flags)`; a node is
   * visited from them exactly when it neighbours a flagged node.
   */
  lemma SnapshotNeighbours(adj: Adjacency, flags: seq<bool>, v: nat)
    requires |flags| == |adj|
    ensures AreNodes(|adj|, Flagged(flags))
    ensures v in Visits(adj, Flagged(flags)) <==> NeighbourOfFlagged(adj, flags, v)
  {
    var sources := Flagged(flags);
    assert forall i :: 0 <= i < |sources| ==> sources[i] in sources;
    if NeighbourOfFlagged(adj, flags, v) {
      var s :| 0 <= s < |adj| && flags[s] && v in adj[s];
      assert s in sources;
      var i :| 0 <= i < |sources| && sources[i] == s;
      assert NeighbourOfSome(adj, sources, v);
    }
  }

  /** Every flag set in `a` is set in `b`. */
  predicate Covers(a: seq<bool>, b: seq<bool>)
  {
    |a| == |b| && forall v :: 0 <= v < |a| && a[v] ==> b[v]
  }

  /** Setting more flags never lowers the count. */
  lemma {:induction false} CountMonotone(a: seq<bool>, b: seq<bool>)
    requires |a| == |b|
    requires forall v :: 0 <= v < |a| && a[v] ==> b[v]
    ensures Count(a) <= Count(b)
  {
    if a != [] {
      var last := |a| - 1;
      CountMonotone(a[..last], b[..last]);
    }
  }

  /** The count reaches the number of nodes exactly when every flag is set. */
  lemma {:induction false} CountFull(a: seq<bool>)
    ensures Count(a) == |a| <==> forall v :: 0 <= v < |a| ==> a[v]
  {
    if a != [] {
      var last := |a| - 1;
      CountFull(a[..last]);
      assert forall v :: 0 <= v < last ==> a[..last][v] == a[v];
    }
  }

  /** The count is zero exactly when no flag is set. */
  lemma CountEmpty(a: seq<bool>)
    ensures Count(a) == 0 <==> forall v :: 0 <= v < |a| ==> !a[v]
  {
    if Count(a) != 0 {
      assert Flagged(a)[0] in Flagged(a);
    } else {
      forall v | 0 <= v < |a| ensures !a[v] {
        assert v !in Flagged(a);
      }
    }
  }

  /** Two flag vectors that never hold at the same node count at most n together. */
  lemma {:induction false} CountDisjoint(a: seq<bool>, b: seq<bool>)
    requires |a| == |b|
    requires forall v :: 0 <= v < |a| ==> !(a[v] && b[v])
    ensures Count(a) + Count(b) <= |a|
  {
    if a != [] {
      var last := |a| - 1;
      CountDisjoint(a[..last], b[..last]);
    }
  }
}
