/**
 * The generic shortest-path solver: a graph store (registered nodes, successor sets and
 * weights of ordered pairs) and a label-correcting traversal over a list used as an
 * approximate priority queue, followed by a walk back along predecessor links.
 */
module ShortestPath {
  import opened Wrappers

  /** An edge between two nodes; an undirected edge stands for two directed ones. By default an edge has weight 1 and is undirected. */
  datatype Edge<T> = Edge(from: T, to: T, weight: real := 1.0, isDirected: bool := false)

  /** The three fields of the solver taken together as one value. */
  datatype Graph<T> = Graph(nodes: set<T>, edges: map<T, set<T>>, weights: map<(T, T), real>)

  function EmptyGraph<T>(): Graph<T> { Graph({}, map[], map[]) }

  /** The successors of `a`, empty when `a` has no successor set. */
  function Successors<T>(g: Graph<T>, a: T): set<T>
  {
    if a in g.edges then g.edges[a] else {}
  }

  /**
   * What the store keeps true: every node with a successor set and every successor is
   * registered, and every stored successor has a weight. Weights may outlive their edges.
   */
  ghost predicate WellFormed<T>(g: Graph<T>)
  {
    && g.edges.Keys <= g.nodes
    && (forall a, b :: a in g.edges && b in g.edges[a] ==> b in g.nodes && (a, b) in g.weights)
  }

  // ---------------------------------------------------------------------------------------
  // Graph store
  // ---------------------------------------------------------------------------------------

  /** Registering a node only adds it to the node set. */
  function WithNode<T>(g: Graph<T>, n: T): (r: Graph<T>)
    ensures n in r.nodes && g.nodes <= r.nodes && r.edges == g.edges && r.weights == g.weights
    ensures forall m :: m in r.nodes ==> m in g.nodes || m == n
  {
    g.(nodes := g.nodes + {n})
  }

  /** Registering nodes one after the other, in sequence order. */
  function WithNodes<T>(g: Graph<T>, ns: seq<T>): Graph<T>
    decreases |ns|
  {
    if ns == [] then g else WithNode(WithNodes(g, ns[..|ns| - 1]), ns[|ns| - 1])
  }

  /**
   * One directed registration: both endpoints join the node set, the weight of the ordered
   * pair is overwritten and `to` joins the successor set of `from`, which is created if absent.
   */
  function Link<T>(g: Graph<T>, from: T, to: T, w: real): (r: Graph<T>)
    ensures r.nodes == g.nodes + {from, to}
    ensures r.weights.Keys == g.weights.Keys + {(from, to)} && r.weights[(from, to)] == w
    ensures forall p :: p in g.weights && p != (from, to) ==> r.weights[p] == g.weights[p]
    ensures r.edges.Keys == g.edges.Keys + {from}
    ensures r.edges[from] == Successors(g, from) + {to}
    ensures forall a :: a in g.edges && a != from ==> r.edges[a] == g.edges[a]
  {
    Graph(g.nodes + {from, to}, g.edges[from := Successors(g, from) + {to}], g.weights[(from, to) := w])
  }

  /**
   * The documented effect of registering an edge: one directed registration, and for an
   * undirected edge a second one in the opposite direction with the same weight.
   */
  function AddEdgeSpec<T>(g: Graph<T>, e: Edge<T>): Graph<T>
  {
    var g1 := Link(g, e.from, e.to, e.weight);
    if e.isDirected then g1 else Link(g1, e.to, e.from, e.weight)
  }

  /** Registering edges one after the other, in sequence order. */
  function WithEdges<T>(g: Graph<T>, es: seq<Edge<T>>): Graph<T>
    decreases |es|
  {
    if es == [] then g else AddEdgeSpec(WithEdges(g, es[..|es| - 1]), es[|es| - 1])
  }

  /**
   * The recursion of the source's edge registration as written, unrolled at most `fuel`
   * times: the mirrored call keeps the edge undirected. `None` means that no return was
   * reached within `fuel` nested calls.
   */
  function AddEdgeAsWritten<T>(g: Graph<T>, e: Edge<T>, fuel: nat): Option<Graph<T>>
    decreases fuel
  {
    var g1 := Link(g, e.from, e.to, e.weight);
    if e.isDirected then Some(g1)
    else if fuel == 0 then None
    else AddEdgeAsWritten(g1, e.(from := e.to, to := e.from), fuel - 1)
  }

  /**
   * Removing an edge as the source does it: the whole successor set of `from` goes, and
   * for an undirected edge `from` also leaves the successor sets of its former successors.
   * Nodes and weights are left alone.
   */
  function Unlink<T>(g: Graph<T>, e: Edge<T>): (r: Graph<T>)
    ensures r.nodes == g.nodes && r.weights == g.weights
    ensures e.from !in g.edges ==> r == g
    ensures e.from in g.edges ==> r.edges.Keys == g.edges.Keys - {e.from}
    ensures forall k :: k in r.edges ==>
              r.edges[k] == if !e.isDirected && k in Successors(g, e.from) then g.edges[k] - {e.from} else g.edges[k]
  {
    if e.from !in g.edges then g
    else
      var gone := g.edges[e.from];
      var rest := g.edges - {e.from};
      if e.isDirected then g.(edges := rest)
      else g.(edges := map k | k in rest :: if k in gone then rest[k] - {e.from} else rest[k])
  }

  // ---------------------------------------------------------------------------------------
  // Lemmas about the graph store
  // ---------------------------------------------------------------------------------------

  /** Registering the same node twice is the same as registering it once. */
  lemma AddNodeIdempotent<T>(g: Graph<T>, n: T)
    ensures WithNode(WithNode(g, n), n) == WithNode(g, n)
  {
  }

  /** Registering a list of nodes adds exactly its elements and changes nothing else. */
  lemma {:induction false} WithNodesEffect<T>(g: Graph<T>, ns: seq<T>)
    ensures WithNodes(g, ns).nodes == g.nodes + set n | n in ns
    ensures WithNodes(g, ns).edges == g.edges && WithNodes(g, ns).weights == g.weights
    decreases |ns|
  {
    if ns != [] {
      var init := ns[..|ns| - 1];
      WithNodesEffect(g, init);
      assert ns == init + [ns[|ns| - 1]];
      assert (set n | n in ns) == (set n | n in init) + {ns[|ns| - 1]};
    }
  }

  /** A directed registration keeps the store well formed. */
  lemma LinkWellFormed<T>(g: Graph<T>, from: T, to: T, w: real)
    requires WellFormed(g)
    ensures WellFormed(Link(g, from, to, w))
  {
    var r := Link(g, from, to, w);
    forall a, b | a in r.edges && b in r.edges[a]
      ensures b in r.nodes && (a, b) in r.weights
    {
      assert b in Successors(r, a);
    }
  }

  /** Registering an edge, directed or not, keeps the store well formed. */
  lemma AddEdgeWellFormed<T>(g: Graph<T>, e: Edge<T>)
    requires WellFormed(g)
    ensures WellFormed(AddEdgeSpec(g, e))
  {
    LinkWellFormed(g, e.from, e.to, e.weight);
    LinkWellFormed(Link(g, e.from, e.to, e.weight), e.to, e.from, e.weight);
  }

  /** The last registration of an ordered pair decides its weight. */
  lemma LastWeightWins<T>(g: Graph<T>, from: T, to: T, w1: real, w2: real)
    ensures Link(Link(g, from, to, w1), from, to, w2) == Link(g, from, to, w2)
  {
    var a := Link(Link(g, from, to, w1), from, to, w2);
    var b := Link(g, from, to, w2);
    assert a.edges == b.edges by {
      forall k | k in a.edges ensures k in b.edges && a.edges[k] == b.edges[k] {
        assert Successors(a, k) == Successors(b, k);
      }
    }
  }

  /** An undirected edge gives both directions, with equal weights. */
  lemma UndirectedEdgeIsSymmetric<T>(g: Graph<T>, e: Edge<T>)
    requires !e.isDirected
    ensures var r := AddEdgeSpec(g, e);
      && e.to in Successors(r, e.from) && e.from in Successors(r, e.to)
      && r.weights[(e.from, e.to)] == r.weights[(e.to, e.from)] == e.weight
  {
  }

  /** An edge given only its two ends has weight 1 and links them both ways. */
  lemma DefaultEdgeBothWays<T>(g: Graph<T>, a: T, b: T)
    ensures var r := AddEdgeSpec(g, Edge(a, b));
      && b in Successors(r, a) && a in Successors(r, b)
      && r.weights[(a, b)] == r.weights[(b, a)] == 1.0
  {
    UndirectedEdgeIsSymmetric(g, Edge(a, b));
  }

  /** A directed edge makes one registration and adds no reverse link. */
  lemma DirectedEdgeIsOneWay<T>(g: Graph<T>, e: Edge<T>)
    requires e.isDirected && e.from != e.to
    ensures var r := AddEdgeSpec(g, e);
      && Successors(r, e.to) == Successors(g, e.to)
      && ((e.to, e.from) in r.weights <==> (e.to, e.from) in g.weights)
  {
  }

  /** As written, a directed registration returns after one step with the documented effect. */
  lemma DirectedAddEdgeAsWrittenReturns<T>(g: Graph<T>, e: Edge<T>, fuel: nat)
    requires e.isDirected
    ensures AddEdgeAsWritten(g, e, fuel) == Some(AddEdgeSpec(g, e))
  {
  }

  /**
   * As written, an undirected registration never returns: however many nested calls are
   * allowed, the mirrored edge is undirected again and the recursion goes on.
   */
  lemma {:induction false} UndirectedAddEdgeAsWrittenDiverges<T>(g: Graph<T>, e: Edge<T>, fuel: nat)
    requires !e.isDirected
    ensures AddEdgeAsWritten(g, e, fuel) == None
    decreases fuel
  {
    if fuel > 0 {
      UndirectedAddEdgeAsWrittenDiverges(Link(g, e.from, e.to, e.weight), e.(from := e.to, to := e.from), fuel - 1);
    }
  }

  /** Removing an edge keeps the store well formed. */
  lemma UnlinkWellFormed<T>(g: Graph<T>, e: Edge<T>)
    requires WellFormed(g)
    ensures WellFormed(Unlink(g, e))
  {
    var r := Unlink(g, e);
    forall a, b | a in r.edges && b in r.edges[a]
      ensures b in r.nodes && (a, b) in r.weights
    {
      assert b in g.edges[a];
    }
  }

  /**
   * Removing any edge out of `from` drops every edge out of `from`, including those to
   * nodes other than `to`, while the weights of the dropped edges stay behind.
   */
  lemma UnlinkDropsAllOutgoing<T>(g: Graph<T>, e: Edge<T>, b: T)
    requires b in Successors(g, e.from) && (e.from, b) in g.weights
    ensures b !in Successors(Unlink(g, e), e.from)
    ensures (e.from, b) in Unlink(g, e).weights
  {
  }

  /** Removal of an edge that was never registered from a node without successors changes nothing. */
  lemma UnlinkWithoutSuccessorsIsNoOp<T>(g: Graph<T>, e: Edge<T>)
    requires e.from !in g.edges
    ensures Unlink(g, e) == g
  {
  }

  /** Removing an undirected edge also removes the reverse links to `from`. */
  lemma UndirectedUnlinkRemovesReverse<T>(g: Graph<T>, e: Edge<T>, k: T)
    requires !e.isDirected && k in Successors(g, e.from)
    ensures e.from !in Successors(Unlink(g, e), k)
  {
  }

  // ---------------------------------------------------------------------------------------
  // Sequences used as the solver's work list
  // ---------------------------------------------------------------------------------------

  ghost predicate Distinct<T>(s: seq<T>)
  {
    forall i, j :: 0 <= i < j < |s| ==> s[i] != s[j]
  }

  /** The position of the first occurrence of `x` in `s`. */
  function FirstIndex<T(==)>(s: seq<T>, x: T): (i: nat)
    requires x in s
    ensures i < |s| && s[i] == x && forall k :: 0 <= k < i ==> s[k] != x
  {
    if s[0] == x then 0 else FirstIndex(s[1..], x) + 1
  }

  /** `List.Remove`: drops the first occurrence of `x`, if any, and keeps the order of the rest. */
  function RemoveFirst<T(==)>(s: seq<T>, x: T): (r: seq<T>)
    ensures x in s ==> r == s[..FirstIndex(s, x)] + s[FirstIndex(s, x) + 1..]
    ensures x in s ==> |r| == |s| - 1
    ensures x !in s ==> r == s
    ensures forall y :: y in r ==> y in s
    ensures forall y :: y in s && y != x ==> y in r
    ensures Distinct(s) ==> Distinct(r) && x !in r
  {
    if s == [] then []
    else if s[0] == x then s[1..]
    else
      var tail := RemoveFirst(s[1..], x);
      RemoveStep(s, x, tail);
      [s[0]] + tail
  }

  /** The contract of `RemoveFirst` carries over from the tail to the whole list. */
  lemma RemoveStep<T>(s: seq<T>, x: T, tail: seq<T>)
    requires |s| > 0 && s[0] != x
    requires x in s[1..] ==> tail == s[1..][..FirstIndex(s[1..], x)] + s[1..][FirstIndex(s[1..], x) + 1..]
    requires x in s[1..] ==> |tail| == |s[1..]| - 1
    requires x !in s[1..] ==> tail == s[1..]
    requires forall y :: y in tail ==> y in s[1..]
    requires forall y :: y in s[1..] && y != x ==> y in tail
    requires Distinct(s[1..]) ==> Distinct(tail) && x !in tail
    ensures x in s ==> [s[0]] + tail == s[..FirstIndex(s, x)] + s[FirstIndex(s, x) + 1..]
    ensures x in s ==> |[s[0]] + tail| == |s| - 1
    ensures x !in s ==> [s[0]] + tail == s
    ensures forall y :: y in [s[0]] + tail ==> y in s
    ensures forall y :: y in s && y != x ==> y in [s[0]] + tail
    ensures Distinct(s) ==> Distinct([s[0]] + tail) && x !in [s[0]] + tail
  {
    RemoveLater(s, x, tail);
    KeepDistinct(s, x, tail);
    assert s == [s[0]] + s[1..];
  }

  /** Removing `x` from the tail of `s`, when `s` does not start with it, removes it from `s`. */
  lemma RemoveLater<T>(s: seq<T>, x: T, tail: seq<T>)
    requires |s| > 0 && s[0] != x
    requires x in s[1..] ==> tail == s[1..][..FirstIndex(s[1..], x)] + s[1..][FirstIndex(s[1..], x) + 1..]
    ensures x in s ==> [s[0]] + tail == s[..FirstIndex(s, x)] + s[FirstIndex(s, x) + 1..]
  {
    if x in s {
      FirstIndexLater(s, x);
      var j := FirstIndex(s[1..], x);
      DropAfterHead(s[0], s[1..], j);
      assert [s[0]] + s[1..] == s;
    }
  }

  /** Putting back the head of a list without repeats keeps it without repeats. */
  lemma KeepDistinct<T>(s: seq<T>, x: T, tail: seq<T>)
    requires |s| > 0 && s[0] != x
    requires forall y :: y in tail ==> y in s[1..]
    requires Distinct(s[1..]) ==> Distinct(tail) && x !in tail
    ensures Distinct(s) ==> Distinct([s[0]] + tail) && x !in [s[0]] + tail
  {
    if Distinct(s) {
      assert Distinct(s[1..]);
      assert s[0] !in s[1..];
      var r := [s[0]] + tail;
      forall i, j | 0 <= i < j < |r| ensures r[i] != r[j] {
        if i == 0 { assert r[j] in tail; }
        else { assert r[i] == tail[i - 1] && r[j] == tail[j - 1]; }
      }
    }
  }

  lemma FirstIndexLater<T>(s: seq<T>, x: T)
    requires |s| > 0 && s[0] != x && x in s
    ensures x in s[1..] && FirstIndex(s, x) == FirstIndex(s[1..], x) + 1
  {
  }

  lemma DropAfterHead<T>(a: T, t: seq<T>, j: nat)
    requires j < |t|
    ensures ([a] + t)[..j + 1] + ([a] + t)[j + 2..] == [a] + (t[..j] + t[j + 1..])
  {
    assert ([a] + t)[..j + 1] == [a] + t[..j];
    assert ([a] + t)[j + 2..] == t[j + 1..];
  }

  /** `List.Insert`: puts `x` at position `i`, shifting the elements from `i` on one place back. */
  function InsertAt<T>(s: seq<T>, i: nat, x: T): (r: seq<T>)
    requires i <= |s|
    ensures |r| == |s| + 1 && r[i] == x
    ensures forall j :: 0 <= j < i ==> r[j] == s[j]
    ensures forall j :: i < j < |r| ==> r[j] == s[j - 1]
    ensures forall y :: y in r ==> y in s || y == x
    ensures forall y :: y in s ==> y in r
    ensures Distinct(s) && x !in s ==> Distinct(r)
  {
    var r := s[..i] + [x] + s[i..];
    InsertMembers(s, i, x);
    InsertDistinct(s, i, x);
    r
  }

  lemma InsertMembers<T>(s: seq<T>, i: nat, x: T)
    requires i <= |s|
    ensures forall y :: y in s[..i] + [x] + s[i..] ==> y in s || y == x
    ensures forall y :: y in s ==> y in s[..i] + [x] + s[i..]
  {
    assert s == s[..i] + s[i..];
  }

  lemma InsertDistinct<T>(s: seq<T>, i: nat, x: T)
    requires i <= |s|
    ensures Distinct(s) && x !in s ==> Distinct(s[..i] + [x] + s[i..])
  {
    var r := s[..i] + [x] + s[i..];
    if Distinct(s) && x !in s {
      forall a, b | 0 <= a < b < |r| ensures r[a] != r[b] {
        if a < i && b > i { assert r[b] == s[b - 1]; }
        else if a > i { assert r[a] == s[a - 1] && r[b] == s[b - 1]; }
      }
    }
  }

  // ---------------------------------------------------------------------------------------
  // The solver's working state and what a solution looks like
  // ---------------------------------------------------------------------------------------

  /** A distance, with `Infinite` playing the part of the `float.MaxValue` start value. */
  datatype Dist = Infinite | Finite(d: real)

  function Plus(a: Dist, w: real): Dist
  {
    if a.Finite? then Finite(a.d + w) else Infinite
  }

  predicate Shorter(a: Dist, b: Dist)
  {
    a.Finite? && (b.Infinite? || a.d < b.d)
  }

  /** The faults the source raises instead of answering. */
  datatype SolveError =
    | MissingAdjacency    // a dequeued node has no successor set (`_edges[next]`)
    | InsertOutOfRange    // `q.Insert(insertionIndex++, n)` past the end of the list
    | MissingPredecessor  // the walk back meets a node without outgoing edges (`previousNodes[current]`)

  datatype Solution<T> = Solution(found: bool, path: seq<T>)

  /** Every predecessor link follows a stored edge. */
  ghost predicate LinksFollowEdges<T>(g: Graph<T>, pred: map<T, Option<T>>)
  {
    forall n :: n in pred && pred[n].Some? ==> n in Successors(g, pred[n].value)
  }

  /**
   * `chain` is what the walk back from `end` collects: it ends with `end`, each element is
   * the predecessor of the next, and the first one has no predecessor.
   */
  ghost predicate BackChain<T>(pred: map<T, Option<T>>, chain: seq<T>, end: T)
  {
    && |chain| > 0 && chain[|chain| - 1] == end
    && chain[0] in pred && pred[chain[0]] == None
    && forall i :: 0 < i < |chain| ==> chain[i] in pred && pred[chain[i]] == Some(chain[i - 1])
  }

  /** A path from `start` to `end` along stored edges. */
  ghost predicate IsPath<T>(g: Graph<T>, path: seq<T>, start: T, end: T)
  {
    && |path| > 0 && path[0] == start && path[|path| - 1] == end
    && forall i :: 0 <= i < |path| - 1 ==> path[i + 1] in Successors(g, path[i])
  }

  /** A chain of predecessor links that follow edges is a path along the graph. */
  lemma BackChainIsPath<T>(g: Graph<T>, pred: map<T, Option<T>>, chain: seq<T>, end: T)
    requires LinksFollowEdges(g, pred) && BackChain(pred, chain, end)
    ensures IsPath(g, chain, chain[0], end)
  {
    forall i | 0 <= i < |chain| - 1 ensures chain[i + 1] in Successors(g, chain[i]) {
      assert pred[chain[i + 1]] == Some(chain[i + 1 - 1]);
    }
  }

  /**
   * Predecessor links point back in dequeue order: a node's predecessor has already been
   * dequeued, and before the node itself if the node has been dequeued too.
   */
  ghost predicate LinksPointBack<T>(pred: map<T, Option<T>>, time: map<T, nat>)
  {
    forall n :: n in pred && pred[n].Some? ==>
      pred[n].value in time && (n in time ==> time[pred[n].value] < time[n])
  }

  /** The position of a node in dequeue order; nodes still queued come after all dequeued ones. */
  ghost function Rank<T>(time: map<T, nat>, dequeued: nat, x: T): nat
  {
    if x in time then time[x] else dequeued
  }

  /**
   * The list part of the traversal's working state: `q` is a duplicate-free list of nodes
   * with a distance, none of them dequeued yet, and every node still marked as queued is in
   * it. `time` records when each dequeued node left the list.
   */
  ghost predicate QueueOk<T>(g: Graph<T>, start: T, bound: nat, q: seq<T>, inQueue: set<T>,
                             dist: map<T, Dist>, time: map<T, nat>, dequeued: nat)
  {
    && Distinct(q) && |q| + dequeued <= bound
    && (forall x :: x in q ==> x in dist && x !in time)
    && inQueue <= g.edges.Keys && (forall x :: x in inQueue ==> x in q)
    && dist.Keys == g.edges.Keys + {start}
    && time.Keys <= g.edges.Keys && (forall x :: x in time ==> time[x] < dequeued)
  }

  /** The link part: one entry per node with successors, links along edges and back in time. */
  ghost predicate LinksOk<T>(g: Graph<T>, previous: map<T, Option<T>>, time: map<T, nat>)
  {
    previous.Keys == g.edges.Keys && LinksFollowEdges(g, previous) && LinksPointBack(previous, time)
  }

  /** The whole working state of the traversal. */
  ghost predicate Working<T>(g: Graph<T>, start: T, bound: nat, q: seq<T>, inQueue: set<T>,
                             dist: map<T, Dist>, previous: map<T, Option<T>>, time: map<T, nat>, dequeued: nat)
  {
    QueueOk(g, start, bound, q, inQueue, dist, time, dequeued) && LinksOk(g, previous, time)
  }

  /**
   * Distances and links agree: a node other than `start` with a finite distance has a
   * predecessor, and every predecessor has a finite distance.
   */
  ghost predicate LinksFromFinite<T>(start: T, dist: map<T, Dist>, previous: map<T, Option<T>>)
  {
    && (forall x :: x in dist && dist[x].Finite? && x != start ==> x in previous && previous[x].Some?)
    && (forall x :: x in previous && previous[x].Some? ==> previous[x].value in dist && dist[previous[x].value].Finite?)
  }

  /**
   * Every predecessor is `start` or has a predecessor of its own, so a walk back that leaves
   * its first node ends at `start`.
   */
  ghost predicate LinksReachStart<T>(start: T, previous: map<T, Option<T>>)
  {
    forall x :: x in previous && previous[x].Some? ==>
      previous[x].value == start || (previous[x].value in previous && previous[previous[x].value].Some?)
  }

  /** No node has more than one successor. */
  ghost predicate AtMostOneSuccessor<T>(g: Graph<T>)
  {
    forall k :: k in g.edges ==> |g.edges[k]| <= 1
  }

  lemma FiniteLinksReachStart<T>(start: T, dist: map<T, Dist>, previous: map<T, Option<T>>)
    requires LinksFromFinite(start, dist, previous)
    ensures LinksReachStart(start, previous)
  {
  }

  /** The working state right after the source's initialisation, before the first dequeue. */
  lemma InitialWorking<T>(g: Graph<T>, start: T, keyOrder: seq<T>)
    requires WellFormed(g) && Distinct(keyOrder) && forall k :: k in keyOrder <==> k in g.edges
    ensures var q := [start] + RemoveFirst(keyOrder, start);
      && Working(g, start, |keyOrder| + 1, q, set k | k in keyOrder,
                 (map k | k in g.edges :: Infinite)[start := Finite(0.0)],
                 map k | k in g.edges :: None, map[], 0)
      && |q| > 0 && q[0] == start
  {
    InitialQueueOk(g, start, keyOrder);
    var previous: map<T, Option<T>> := map k | k in g.edges :: None;
    assert LinksOk(g, previous, map[]);
  }

  lemma InitialQueueOk<T>(g: Graph<T>, start: T, keyOrder: seq<T>)
    requires Distinct(keyOrder) && forall k :: k in keyOrder <==> k in g.edges
    ensures QueueOk(g, start, |keyOrder| + 1, [start] + RemoveFirst(keyOrder, start), set k | k in keyOrder,
                    (map k | k in g.edges :: Infinite)[start := Finite(0.0)], map[], 0)
  {
    var dist := (map k | k in g.edges :: Infinite)[start := Finite(0.0)];
    assert dist.Keys == g.edges.Keys + {start};
    InitialQueueShape(g, start, keyOrder, (set k | k in keyOrder), dist);
  }

  lemma InitialQueueShape<T>(g: Graph<T>, start: T, keyOrder: seq<T>, inQueue: set<T>, dist: map<T, Dist>)
    requires Distinct(keyOrder) && forall k :: k in keyOrder <==> k in g.edges
    requires inQueue == set k | k in keyOrder
    requires dist.Keys == g.edges.Keys + {start}
    ensures QueueOk(g, start, |keyOrder| + 1, [start] + RemoveFirst(keyOrder, start), inQueue, dist, map[], 0)
  {
    var rest := RemoveFirst(keyOrder, start);
    var q := [start] + rest;
    InitialQueueDistinct(start, rest);
    assert forall x :: x in q ==> x == start || x in rest;
    assert forall x :: x in inQueue ==> x in keyOrder;
  }

  lemma InitialQueueDistinct<T>(start: T, rest: seq<T>)
    requires Distinct(rest) && start !in rest
    ensures Distinct([start] + rest)
  {
    var q := [start] + rest;
    forall i, j | 0 <= i < j < |q| ensures q[i] != q[j] {
      if i == 0 { assert q[j] in rest; }
      else { assert q[i] == rest[i - 1] && q[j] == rest[j - 1]; }
    }
  }

  /** Taking the head off the list records its dequeue time and keeps the working state. */
  lemma DequeueWorking<T>(g: Graph<T>, start: T, bound: nat, q: seq<T>, inQueue: set<T>,
                          dist: map<T, Dist>, previous: map<T, Option<T>>, time: map<T, nat>, dequeued: nat)
    requires Working(g, start, bound, q, inQueue, dist, previous, time, dequeued)
    requires |q| > 0 && q[0] in g.edges
    ensures Working(g, start, bound, q[1..], inQueue - {q[0]}, dist, previous, time[q[0] := dequeued], dequeued + 1)
  {
    assert forall x :: x in q[1..] ==> x != q[0];
  }

  /** Moving an improved successor `n` of `next` to position `ins` keeps the working state. */
  lemma RequeueWorking<T>(g: Graph<T>, start: T, bound: nat, q: seq<T>, inQueue: set<T>,
                          dist: map<T, Dist>, previous: map<T, Option<T>>, time: map<T, nat>, dequeued: nat,
                          next: T, n: T, ins: nat, d: Dist)
    requires Working(g, start, bound, q, inQueue, dist, previous, time, dequeued)
    requires n in inQueue && n in Successors(g, next) && next in time
    requires ins <= |RemoveFirst(q, n)|
    ensures var q' := InsertAt(RemoveFirst(q, n), ins, n);
      && |q'| == |q|
      && Working(g, start, bound, q', inQueue, dist[n := d], previous[n := Some(next)], time, dequeued)
  {
    var q' := InsertAt(RemoveFirst(q, n), ins, n);
    MoveKeepsMembers(q, n, ins, q');
    var dist', previous' := dist[n := d], previous[n := Some(next)];
    assert QueueOk(g, start, bound, q', inQueue, dist', time, dequeued);
    assert LinksOk(g, previous', time);
  }

  /** Moving a member of a list without repeats to another position keeps its members and no repeats. */
  lemma MoveKeepsMembers<T>(q: seq<T>, n: T, ins: nat, q': seq<T>)
    requires n in q && ins <= |RemoveFirst(q, n)| && q' == InsertAt(RemoveFirst(q, n), ins, n)
    ensures |q'| == |q| && (forall x :: x in q' <==> x in q)
    ensures Distinct(q) ==> Distinct(q')
  {
  }

  /**
   * One step of the inner loop: if going through `next` shortens the distance of its
   * queued successor `n`, `n` moves to position `ins` of the list, gets the new distance and
   * `next` as predecessor, and `ins` moves on. Fails when `ins` lies past the end of the list.
   */
  method RelaxEdge<T(==)>(g: Graph<T>, start: T, bound: nat, next: T, n: T, q0: seq<T>, inQueue: set<T>,
                          dist0: map<T, Dist>, previous0: map<T, Option<T>>, ins0: nat,
                          ghost time: map<T, nat>, ghost dequeued: nat)
    returns (ok: bool, improved: bool, q: seq<T>, dist: map<T, Dist>, previous: map<T, Option<T>>, ins: nat)
    requires WellFormed(g) && next in g.edges && next in time && n in inQueue && n in g.edges[next]
    requires Working(g, start, bound, q0, inQueue, dist0, previous0, time, dequeued)
    requires LinksFromFinite(start, dist0, previous0)
    ensures improved == Shorter(Plus(dist0[next], g.weights[(next, n)]), dist0[n])
    ensures !improved ==> ok && q == q0 && dist == dist0 && previous == previous0 && ins == ins0
    ensures improved ==> (ok <==> ins0 < |q0|)
    ensures improved && ok ==>
              && q == InsertAt(RemoveFirst(q0, n), ins0, n) && ins == ins0 + 1
              && dist == dist0[n := Plus(dist0[next], g.weights[(next, n)])]
              && previous == previous0[n := Some(next)]
    ensures ok ==> |q| == |q0| && Working(g, start, bound, q, inQueue, dist, previous, time, dequeued)
    ensures ok ==> LinksFromFinite(start, dist, previous) && dist[next] == dist0[next]
    ensures ok ==> forall x :: x in dist0 && dist0[x].Finite? ==> x in dist && dist[x].Finite?
    ensures ok && dist0[next].Finite? ==> dist[n].Finite?
  {
    q, dist, previous, ins := q0, dist0, previous0, ins0;
    var d := Plus(dist[next], g.weights[(next, n)]);
    improved := Shorter(d, dist[n]);
    if improved {
      q := RemoveFirst(q, n);
      if ins > |q| {
        return false, improved, q, dist, previous, ins;
      }
      RequeueWorking(g, start, bound, q0, inQueue, dist0, previous0, time, dequeued, next, n, ins, d);
      q := InsertAt(q, ins, n);
      ins := ins + 1;
      dist := dist[n := d];
      previous := previous[n := Some(next)];
    }
    return true, improved, q, dist, previous, ins;
  }

  /**
   * The inner loop of the traversal: every successor of `next` that is still queued and
   * whose distance improves gets `next` as predecessor and moves to position `ins` of the
   * list. `improvements` counts the successors moved. The walk fails exactly when an
   * improvement finds the insertion index at or past the end of the shortened list, so a
   * failure needs at least `|q0| - ins0` earlier improvements among the queued successors.
   */
  method Relax<T(==)>(g: Graph<T>, start: T, bound: nat, next: T, q0: seq<T>, inQueue: set<T>,
                      dist0: map<T, Dist>, previous0: map<T, Option<T>>, ins0: nat,
                      ghost time: map<T, nat>, ghost dequeued: nat)
    returns (ok: bool, q: seq<T>, dist: map<T, Dist>, previous: map<T, Option<T>>, ins: nat, ghost improvements: nat)
    requires WellFormed(g) && next in g.edges && next in time && next !in inQueue
    requires Working(g, start, bound, q0, inQueue, dist0, previous0, time, dequeued)
    requires LinksFromFinite(start, dist0, previous0)
    ensures ok ==> Working(g, start, bound, q, inQueue, dist, previous, time, dequeued)
    ensures ok ==> |q| == |q0| && LinksFromFinite(start, dist, previous)
    ensures ok ==> forall x :: x in dist0 && dist0[x].Finite? ==> x in dist && dist[x].Finite?
    ensures ok && dist0[next].Finite? ==> forall n :: n in g.edges[next] && n in inQueue ==> dist[n].Finite?
    ensures improvements <= |g.edges[next] * inQueue|
    ensures ok ==> ins == ins0 + improvements && (improvements > 0 ==> ins <= |q0|)
    ensures !ok ==> improvements < |g.edges[next] * inQueue| && 0 < |q0| <= ins0 + improvements
  {
    q, dist, previous, ins, improvements := q0, dist0, previous0, ins0, 0;
    var candidates := g.edges[next] * inQueue;
    while candidates != {}
      invariant Relaxing(g, start, bound, next, q0, inQueue, dist0, ins0, time, dequeued,
                         candidates, q, dist, previous, ins, improvements)
      decreases candidates
    {
      ok, candidates, q, dist, previous, ins, improvements :=
        RelaxCandidate(g, start, bound, next, q0, inQueue, dist0, ins0, time, dequeued,
                       candidates, q, dist, previous, ins, improvements);
      if !ok {
        return false, q, dist, previous, ins, improvements;
      }
    }
    return true, q, dist, previous, ins, improvements;
  }

  /**
   * What holds while the inner loop runs: the working state, distances and links that
   * agree, finite distances that stay finite, finite distances for the successors already
   * relaxed from a finite `next`, and an insertion index advanced once per improvement.
   */
  ghost predicate Relaxing<T>(g: Graph<T>, start: T, bound: nat, next: T, q0: seq<T>, inQueue: set<T>,
                              dist0: map<T, Dist>, ins0: nat, time: map<T, nat>, dequeued: nat,
                              candidates: set<T>, q: seq<T>, dist: map<T, Dist>, previous: map<T, Option<T>>,
                              ins: nat, improvements: nat)
  {
    && next in g.edges && next in dist0 && next in dist
    && candidates <= g.edges[next] * inQueue && |q| == |q0|
    && Working(g, start, bound, q, inQueue, dist, previous, time, dequeued)
    && LinksFromFinite(start, dist, previous)
    && (forall x :: x in dist0 && dist0[x].Finite? ==> x in dist && dist[x].Finite?)
    && dist[next] == dist0[next]
    && (dist0[next].Finite? ==>
          forall m :: m in g.edges[next] && m in inQueue && m !in candidates ==> dist[m].Finite?)
    && improvements + |candidates| <= |g.edges[next] * inQueue|
    && ins == ins0 + improvements && (improvements > 0 ==> ins <= |q0|)
  }

  /** One pass of the inner loop: a successor still to be looked at is relaxed. */
  method RelaxCandidate<T(==)>(g: Graph<T>, start: T, bound: nat, next: T, q0: seq<T>, inQueue: set<T>,
                               dist0: map<T, Dist>, ins0: nat, ghost time: map<T, nat>, ghost dequeued: nat,
                               candidates0: set<T>, q1: seq<T>, dist1: map<T, Dist>,
                               previous1: map<T, Option<T>>, ins1: nat, ghost improvements1: nat)
    returns (ok: bool, candidates: set<T>, q: seq<T>, dist: map<T, Dist>, previous: map<T, Option<T>>,
             ins: nat, ghost improvements: nat)
    requires WellFormed(g) && next in time && next !in inQueue && candidates0 != {}
    requires Relaxing(g, start, bound, next, q0, inQueue, dist0, ins0, time, dequeued,
                      candidates0, q1, dist1, previous1, ins1, improvements1)
    ensures ok ==> candidates < candidates0
    ensures ok ==> Relaxing(g, start, bound, next, q0, inQueue, dist0, ins0, time, dequeued,
                            candidates, q, dist, previous, ins, improvements)
    ensures !ok ==> improvements < |g.edges[next] * inQueue| && 0 < |q0| <= ins0 + improvements
  {
    var n :| n in candidates0;
    candidates := candidates0 - {n};
    var improved;
    ok, improved, q, dist, previous, ins := RelaxEdge(g, start, bound, next, n, q1, inQueue, dist1, previous1, ins1, time, dequeued);
    improvements := if ok && improved then improvements1 + 1 else improvements1;
    if !ok {
      assert n in q1;
    }
  }

  /**
   * What holds at the head of the main loop: the working state, distances and links that
   * agree, the state before the first dequeue, the successors of `start` reached once it
   * has been dequeued, and an insertion index inside the list.
   */
  ghost predicate Traversing<T>(g: Graph<T>, start: T, end: T, bound: nat, q: seq<T>, inQueue: set<T>,
                                dist: map<T, Dist>, previous: map<T, Option<T>>, ins: nat,
                                time: map<T, nat>, dequeued: nat)
  {
    && Working(g, start, bound, q, inQueue, dist, previous, time, dequeued)
    && LinksFromFinite(start, dist, previous) && start in dist && dist[start].Finite?
    && (dequeued == 0 ==>
          && |q| > 0 && q[0] == start && inQueue == g.edges.Keys
          && forall k :: k in previous ==> previous[k] == None)
    && (start == end ==> dequeued == 0)
    && (dequeued > 0 ==> start in g.edges)
    && (dequeued > 0 ==> forall n :: n in g.edges[start] && n in g.edges && n != start ==> dist[n].Finite?)
    && (ins == 0 || ins < |q|)
    && (AtMostOneSuccessor(g) ==> ins == 0)
  }

  /**
   * The main loop of the traversal, from the initialisation of the working state until
   * `end` reaches the head of the list or the list is empty. Returns the fault that stopped
   * it, if any, and the predecessor links it recorded.
   */
  method Traverse<T(==)>(g: Graph<T>, start: T, end: T, keyOrder: seq<T>)
    returns (fault: Option<SolveError>, previous: map<T, Option<T>>, ghost time: map<T, nat>, ghost dequeued: nat)
    requires WellFormed(g) && Distinct(keyOrder) && forall k :: k in keyOrder <==> k in g.edges
    ensures fault.None? ==>
              && previous.Keys == g.edges.Keys && time.Keys <= previous.Keys
              && LinksFollowEdges(g, previous) && LinksPointBack(previous, time)
              && (forall x :: x in time ==> time[x] < dequeued)
              && LinksReachStart(start, previous)
    ensures fault.None? && start != end ==>
              forall n :: n in Successors(g, start) && n in g.edges && n != start ==> previous[n].Some?
    ensures fault != Some(MissingPredecessor)
    ensures start !in g.edges && start != end ==> fault == Some(MissingAdjacency)
    ensures start in g.edges ==> fault != Some(MissingAdjacency)
    ensures AtMostOneSuccessor(g) ==> fault != Some(InsertOutOfRange)
    ensures start == end ==> fault == None && forall k :: k in previous ==> previous[k] == None
    ensures dequeued <= |keyOrder| + 1
  {
    time, dequeued := map[], 0;
    InitialWorking(g, start, keyOrder);
    var dist: map<T, Dist> := map k | k in g.edges :: Infinite;
    previous := map k | k in g.edges :: None;
    var inQueue := set k | k in keyOrder;
    dist := dist[start := Finite(0.0)];
    var q := [start] + RemoveFirst(keyOrder, start);
    var ins: nat := 0;

    while |q| > 0
      invariant Traversing(g, start, end, |keyOrder| + 1, q, inQueue, dist, previous, ins, time, dequeued)
      decreases |q|
    {
      if q[0] == end {
        break;
      }
      ghost var before := dequeued;
      fault, q, inQueue, dist, previous, ins, time, dequeued :=
        Visit(g, start, end, |keyOrder| + 1, q, inQueue, dist, previous, ins, time, dequeued);
      if fault.Some? {
        return fault, previous, time, dequeued;
      }
    }
    assert start != end ==> dequeued > 0;
    FiniteLinksReachStart(start, dist, previous);
    return None, previous, time, dequeued;
  }

  /**
   * One pass of the main loop once its head is known not to be `end`: the head leaves the
   * list, its queued successors are relaxed, and the insertion index steps back by one,
   * not below zero.
   */
  method Visit<T(==)>(g: Graph<T>, start: T, end: T, bound: nat, q0: seq<T>, inQueue0: set<T>,
                      dist0: map<T, Dist>, previous0: map<T, Option<T>>, ins0: nat,
                      ghost time0: map<T, nat>, ghost dequeued0: nat)
    returns (fault: Option<SolveError>, q: seq<T>, inQueue: set<T>, dist: map<T, Dist>,
             previous: map<T, Option<T>>, ins: nat, ghost time: map<T, nat>, ghost dequeued: nat)
    requires WellFormed(g)
    requires Traversing(g, start, end, bound, q0, inQueue0, dist0, previous0, ins0, time0, dequeued0)
    requires |q0| > 0 && q0[0] != end
    ensures fault.None? ==> |q| < |q0| && Traversing(g, start, end, bound, q, inQueue, dist, previous, ins, time, dequeued)
    ensures fault != Some(MissingPredecessor)
    ensures fault == Some(MissingAdjacency) <==> q0[0] !in g.edges
    ensures q0[0] !in g.edges ==> q0[0] == start
    ensures AtMostOneSuccessor(g) ==> fault != Some(InsertOutOfRange)
    ensures dequeued <= bound
  {
    var next := q0[0];
    q := q0[1..];
    inQueue := inQueue0 - {next};
    dist, previous, ins, time, dequeued := dist0, previous0, ins0, time0, dequeued0;
    if next !in g.edges {
      return Some(MissingAdjacency), q, inQueue, dist, previous, ins, time, dequeued;
    }
    DequeueWorking(g, start, bound, q0, inQueue0, dist, previous, time, dequeued);
    time := time[next := dequeued];
    dequeued := dequeued + 1;
    var ok;
    ghost var improvements;
    ghost var candidates := g.edges[next] * inQueue;
    ok, q, dist, previous, ins, improvements := Relax(g, start, bound, next, q, inQueue, dist, previous, ins, time, dequeued);
    if AtMostOneSuccessor(g) {
      SubsetCardinality(candidates, g.edges[next]);
    }
    if !ok {
      return Some(InsertOutOfRange), q, inQueue, dist, previous, ins, time, dequeued;
    }
    ins := if ins - 1 < 0 then 0 else ins - 1;
    return None, q, inQueue, dist, previous, ins, time, dequeued;
  }

  lemma SubsetCardinality<T>(a: set<T>, b: set<T>)
    requires a <= b
    ensures |a| <= |b|
  {
    assert b == a + (b - a);
  }

  /**
   * The walk back from `end`: prepends the current node and follows its predecessor link
   * until there is none. Fails, as the source's dictionary lookup does, when `end` has no
   * entry; every node reached later has one.
   */
  method WalkBack<T(==)>(previous: map<T, Option<T>>, end: T, ghost time: map<T, nat>, ghost dequeued: nat)
    returns (path: Option<seq<T>>)
    requires time.Keys <= previous.Keys && LinksPointBack(previous, time)
    requires forall x :: x in time ==> time[x] < dequeued
    ensures path.None? <==> end !in previous
    ensures path.Some? ==> BackChain(previous, path.value, end) && Distinct(path.value)
    ensures end in previous && previous[end] == None ==> path == Some([end])
  {
    var acc: seq<T> := [];
    var current: Option<T> := Some(end);
    while current.Some?
      invariant acc == [] ==> current == Some(end)
      invariant end in previous && previous[end] == None && acc != [] ==> acc == [end] && current == None
      invariant acc != [] ==> acc[|acc| - 1] == end && acc[0] in previous && current == previous[acc[0]]
      invariant forall i :: 0 < i < |acc| ==> acc[i] in previous && previous[acc[i]] == Some(acc[i - 1])
      invariant forall i, j :: 0 <= i < j < |acc| ==> Rank(time, dequeued, acc[i]) < Rank(time, dequeued, acc[j])
      invariant current.Some? && acc != [] ==> Rank(time, dequeued, current.value) < Rank(time, dequeued, acc[0])
      decreases if current.Some? then Rank(time, dequeued, current.value) + 1 else 0
    {
      acc := [current.value] + acc;
      if current.value !in previous {
        return None;
      }
      current := previous[current.value];
    }
    return Some(acc);
  }

  // ---------------------------------------------------------------------------------------
  // The solver object
  // ---------------------------------------------------------------------------------------

  class Dijkstra<T(==)> {
    var nodes: set<T>
    var edges: map<T, set<T>>
    var weights: map<(T, T), real>

    function State(): Graph<T>
      reads this
    {
      Graph(nodes, edges, weights)
    }

    ghost predicate Valid()
      reads this
    {
      WellFormed(State())
    }

    /** An empty solver. */
    constructor ()
      ensures Valid() && State() == EmptyGraph()
    {
      nodes, edges, weights := {}, map[], map[];
    }

    /** A solver holding the given nodes, then the given edges, registered in order. */
    constructor FromLists(ns: seq<T>, es: seq<Edge<T>>)
      ensures Valid() && State() == WithEdges(WithNodes(EmptyGraph(), ns), es)
    {
      nodes, edges, weights := {}, map[], map[];
      new;
      AddNodes(ns);
      AddEdges(es);
    }

    method AddNode(n: T)
      requires Valid()
      modifies this
      ensures Valid() && State() == WithNode(old(State()), n)
    {
      nodes := nodes + {n};
    }

    method AddNodes(ns: seq<T>)
      requires Valid()
      modifies this
      ensures Valid() && State() == WithNodes(old(State()), ns)
    {
      for i := 0 to |ns|
        invariant Valid() && State() == WithNodes(old(State()), ns[..i])
      {
        assert ns[..i + 1][..i] == ns[..i];
        AddNode(ns[i]);
      }
      assert ns[..|ns|] == ns;
    }

    /**
     * Registers an edge. An undirected edge is registered a second time in the opposite
     * direction, and that mirrored edge is directed, so the recursion stops after one call.
     */
    method AddEdge(e: Edge<T>)
      requires Valid()
      modifies this
      ensures Valid() && State() == AddEdgeSpec(old(State()), e)
      decreases if e.isDirected then 0 else 1
    {
      LinkWellFormed(State(), e.from, e.to, e.weight);
      nodes := nodes + {e.from, e.to};
      weights := weights[(e.from, e.to) := e.weight];
      var succ := if e.from in edges then edges[e.from] else {};
      edges := edges[e.from := succ + {e.to}];
      if e.isDirected {
        return;
      }
      AddEdge(Edge(e.to, e.from, e.weight, true));
    }

    method AddEdges(es: seq<Edge<T>>)
      requires Valid()
      modifies this
      ensures Valid() && State() == WithEdges(old(State()), es)
    {
      for i := 0 to |es|
        invariant Valid() && State() == WithEdges(old(State()), es[..i])
      {
        assert es[..i + 1][..i] == es[..i];
        AddEdge(es[i]);
      }
      assert es[..|es|] == es;
    }

    /** Removes every edge out of `e.from` (and, when undirected, the links back to it). */
    method RemoveEdge(e: Edge<T>)
      requires Valid()
      modifies this
      ensures Valid() && State() == Unlink(old(State()), e)
    {
      UnlinkWellFormed(State(), e);
      if e.from !in edges {
        return;
      }
      var gone := edges[e.from];
      edges := edges - {e.from};
      if e.isDirected {
        return;
      }
      var todo := gone;
      while todo != {}
        invariant todo <= gone
        invariant nodes == old(nodes) && weights == old(weights)
        invariant edges.Keys == old(edges).Keys - {e.from}
        invariant forall k :: k in edges ==>
                    edges[k] == if k in gone && k !in todo then old(edges)[k] - {e.from} else old(edges)[k]
        decreases todo
      {
        var node :| node in todo;
        todo := todo - {node};
        if node in edges {
          edges := edges[node := edges[node] - {e.from}];
        }
      }
    }

    /**
     * Searches a path from `start` to `end`. `keyOrder` is the order in which the source's
     * dictionary enumerates the nodes that have successors; the order in which a successor
     * set is enumerated is chosen arbitrarily. The ghost results expose the predecessor
     * links, the chain collected by the walk back and the number of dequeued nodes.
     */
    method Solve(start: T, end: T, keyOrder: seq<T>)
      returns (r: Result<Solution<T>, SolveError>, ghost pred: map<T, Option<T>>, ghost chain: seq<T>, ghost dequeued: nat)
      requires Valid()
      requires Distinct(keyOrder) && forall k :: k in keyOrder <==> k in edges
      ensures start !in nodes || end !in nodes ==> r == Ok(Solution(false, []))
      ensures start in nodes && end in nodes && start !in edges ==>
                r == Err(if start == end then MissingPredecessor else MissingAdjacency)
      ensures start in nodes && end in nodes && end !in edges ==> r.Err?
      ensures start in edges ==> r != Err(MissingAdjacency)
      ensures end in edges ==> r != Err(MissingPredecessor)
      ensures AtMostOneSuccessor(State()) ==> r != Err(InsertOutOfRange)
      ensures start == end && start in edges ==> r == Ok(Solution(true, [start]))
      ensures r.Ok? && r.value.found ==> IsPath(State(), r.value.path, start, end)
      ensures r.Ok? && !r.value.found ==> r.value.path == []
      ensures r.Ok? ==> Distinct(r.value.path)
      ensures r.Ok? && start in nodes && end in nodes ==>
                && LinksFollowEdges(State(), pred) && BackChain(pred, chain, end)
                && (r.value.found <==> chain[0] == start)
                && r.value.path == (if r.value.found then chain else [])
                && end in pred && (r.value.found <==> start == end || pred[end].Some?)
      ensures r.Ok? && start != end && end in Successors(State(), start) ==> r.value.found
      ensures dequeued <= |keyOrder| + 1
    {
      pred, chain, dequeued := map[], [], 0;
      if start !in nodes || end !in nodes {
        return Ok(Solution(false, [])), pred, chain, dequeued;
      }
      var g := State();
      var fault, previous;
      ghost var time;
      fault, previous, time, dequeued := Traverse(g, start, end, keyOrder);
      if fault.Some? {
        return Err(fault.value), previous, chain, dequeued;
      }
      var walked := WalkBack(previous, end, time, dequeued);
      if walked.None? {
        return Err(MissingPredecessor), previous, chain, dequeued;
      }
      var path := walked.value;
      chain := path;
      BackChainIsPath(g, previous, chain, end);
      if |chain| > 1 {
        // The first node is the predecessor of the second and has none itself.
        assert previous[chain[1]] == Some(chain[0]);
      }
      if start == end && start in edges {
        // No link was set before the first dequeue, so the walk stops at `end` itself.
        assert path == [start];
      }
      if path[0] == start && path[|path| - 1] == end {
        return Ok(Solution(true, path)), previous, chain, dequeued;
      }
      return Ok(Solution(false, [])), previous, chain, dequeued;
    }
  }

  /** Two nodes joined by one undirected edge: the solver finds the path across it. */
  method SolveAcrossUndirectedEdge<T(==)>(a: T, b: T) returns (r: Result<Solution<T>, SolveError>)
    requires a != b
    ensures r == Ok(Solution(true, [a, b]))
  {
    var solver := OneEdgeSolver(a, b);
    assert Distinct([a, b]);
    ghost var pred, chain, dequeued;
    r, pred, chain, dequeued := solver.Solve(a, b, [a, b]);
    FoundAcross(solver.State(), a, b, r);
  }

  /** A solver holding one undirected edge between `a` and `b`. */
  method OneEdgeSolver<T(==)>(a: T, b: T) returns (solver: Dijkstra<T>)
    requires a != b
    ensures fresh(solver) && solver.Valid()
    ensures solver.edges == map[a := {b}, b := {a}] && a in solver.nodes && b in solver.nodes
    ensures AtMostOneSuccessor(solver.State())
  {
    solver := new Dijkstra();
    solver.AddEdge(Edge(a, b));
    OneUndirectedEdge(a, b);
    MutualPairSingle(solver.State(), a, b);
  }

  /** What the solver promises across one undirected edge pins its result down to the edge. */
  lemma FoundAcross<T>(g: Graph<T>, a: T, b: T, r: Result<Solution<T>, SolveError>)
    requires a != b && g.edges == map[a := {b}, b := {a}]
    requires r != Err(MissingAdjacency) && r != Err(MissingPredecessor) && r != Err(InsertOutOfRange)
    requires r.Ok? && b in Successors(g, a) ==> r.value.found
    requires r.Ok? && r.value.found ==> IsPath(g, r.value.path, a, b)
    requires r.Ok? ==> Distinct(r.value.path)
    ensures r == Ok(Solution(true, [a, b]))
  {
    ResultKinds(r);
    OnlyPathAcross(g, a, b, r.value.path);
  }

  /** A result is a solution or one of the three faults. */
  lemma ResultKinds<S>(r: Result<S, SolveError>)
    ensures r.Ok? || r == Err(MissingAdjacency) || r == Err(MissingPredecessor) || r == Err(InsertOutOfRange)
  {
    match r
    case Ok(_) =>
    case Err(e) =>
      match e
      case MissingAdjacency =>
      case MissingPredecessor =>
      case InsertOutOfRange =>
  }

  /** One undirected edge between two nodes links each to the other and to nothing else. */
  lemma OneUndirectedEdge<T>(a: T, b: T)
    requires a != b
    ensures AddEdgeSpec(EmptyGraph(), Edge(a, b)).edges == map[a := {b}, b := {a}]
  {
    var g0: Graph<T> := EmptyGraph();
    assert Successors(g0, a) + {b} == {b};
    var g1 := Link(g0, a, b, 1.0);
    assert g1.edges == map[a := {b}];
    assert Successors(g1, b) + {a} == {a};
    var g2 := Link(g1, b, a, 1.0);
    assert g2.edges == map[a := {b}, b := {a}];
  }

  /** Two nodes that are each other's only successor have at most one successor each. */
  lemma MutualPairSingle<T>(g: Graph<T>, a: T, b: T)
    requires g.edges == map[a := {b}, b := {a}]
    ensures AtMostOneSuccessor(g)
  {
    assert |{a}| == 1 && |{b}| == 1;
  }

  /** Across a single undirected edge, the one path without repeats is the edge itself. */
  lemma OnlyPathAcross<T>(g: Graph<T>, a: T, b: T, path: seq<T>)
    requires a != b && g.edges == map[a := {b}, b := {a}]
    requires IsPath(g, path, a, b) && Distinct(path)
    ensures path == [a, b]
  {
    assert |path| >= 2 && path[1] in Successors(g, a);
    assert path[1] == path[|path| - 1];
  }

  /**
   * A directed edge into a node without successors: the node is registered but has no
   * entry in the predecessor links, so the walk back fails on its lookup.
   */
  method SolveIntoSinkFails<T(==)>(a: T, b: T) returns (r: Result<Solution<T>, SolveError>)
    requires a != b
    ensures r == Err(MissingPredecessor)
  {
    var solver := new Dijkstra();
    solver.AddEdge(Edge(a, b, 1.0, true));
    var g0: Graph<T> := EmptyGraph();
    assert Successors(g0, a) == {} && Successors(g0, a) + {b} == {b};
    assert solver.State() == Link(g0, a, b, 1.0);
    assert solver.edges == map[a := {b}];
    assert |{b}| == 1;
    assert forall k :: k in solver.edges ==> |solver.edges[k]| <= 1;
    assert a in solver.nodes && b in solver.nodes && a in solver.edges && b !in solver.edges;
    ghost var pred, chain, dequeued;
    r, pred, chain, dequeued := solver.Solve(a, b, [a]);
    assert r.Err? && r != Err(MissingAdjacency) && r != Err(InsertOutOfRange);
    assert !r.error.MissingAdjacency? && !r.error.InsertOutOfRange?;
    assert r.error.MissingPredecessor?;
    assert r.error == MissingPredecessor;
  }
}
