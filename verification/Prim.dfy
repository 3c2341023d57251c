/** What the restarting scan of `mst_kruskal` computes, as a function of the sorted edges and the starting node,
    and why that is a minimum spanning tree of the starting node's component. */
module Prim {
  import opened Basics
  import opened Names
  import opened Order
  import opened Sums
  import opened Topology
  import opened Trees

  function WeightOf(edges: Edges, k: EdgeKey): nat {
    if k in edges then edges[k].weight else 0
  }

  /** The order `weight_sorted_edges` sorts by: weight, then `from`, then `to`. */
  predicate KeyBefore(edges: Edges, a: EdgeKey, b: EdgeKey) {
    if WeightOf(edges, a) != WeightOf(edges, b) then WeightOf(edges, a) < WeightOf(edges, b)
    else if a.from != b.from then NameLess(a.from, b.from)
    else NameLess(a.to, b.to)
  }

  lemma KeyOrder(edges: Edges, less: (EdgeKey, EdgeKey) -> bool)
    requires forall a, b :: less(a, b) == KeyBefore(edges, a, b)
    ensures StrictTotal(less)
  {
    NameOrder();
    hide NameLess;
  }

  function WeightSorted(edges: Edges): seq<Edge> {
    var less := (a, b) => KeyBefore(edges, a, b);
    KeyOrder(edges, less);
    var keys := Sort(edges.Keys, less);
    seq(|keys|, i requires 0 <= i < |keys| => if keys[i] in edges then edges[keys[i]]
      else Edge(keys[i].from, keys[i].to, None, None, 0, 0))
  }

  ghost predicate ByWeight(s: seq<Edge>, edges: Edges) {
    && (forall e :: e in s <==> e in edges.Values)
    && (forall i, j :: 0 <= i < j < |s| ==> KeyBefore(edges, s[i].Key(), s[j].Key()))
  }

  lemma WeightSortedIsByWeight(edges: Edges)
    requires WellKeyed(edges)
    ensures ByWeight(WeightSorted(edges), edges)
  {
    var less := (a, b) => KeyBefore(edges, a, b);
    KeyOrder(edges, less);
    var keys := Sort(edges.Keys, less);
    var s := WeightSorted(edges);
    SortedKeys(edges, keys, less, s);
  }

  lemma SortedKeys(edges: Edges, keys: seq<EdgeKey>, less: (EdgeKey, EdgeKey) -> bool, s: seq<Edge>)
    requires Ascending(keys, less) && forall k :: k in keys <==> k in edges
    requires forall a, b :: less(a, b) == KeyBefore(edges, a, b)
    requires WellKeyed(edges)
    requires |s| == |keys| && forall i :: 0 <= i < |s| ==> keys[i] in edges ==> s[i] == edges[keys[i]]
    ensures ByWeight(s, edges)
  {
    hide KeyBefore;
    assert forall i :: 0 <= i < |s| ==> keys[i] in keys;
    forall i, j | 0 <= i < j < |s| ensures KeyBefore(edges, s[i].Key(), s[j].Key()) {
      assert less(keys[i], keys[j]);
      assert s[i].Key() == keys[i] && s[j].Key() == keys[j];
    }
    forall e ensures e in s <==> e in edges.Values {
      if e in edges.Values {
        var k :| k in edges && edges[k] == e;
        assert k in keys;
        var i :| 0 <= i < |keys| && keys[i] == k;
        assert s[i] == e;
      }
    }
  }

  /** A two-way link between a visited and an unvisited node. */
  predicate Frontier(edges: Edges, e: Edge, visited: set<Name>) {
    TwoWay(edges, e.Key()) && Crosses(e.Key(), visited)
  }

  /** The position, at or after `from`, of the first frontier edge; the length of `s` when there is none. */
  function Next(s: seq<Edge>, edges: Edges, visited: set<Name>, from: nat := 0): (i: nat)
    requires from <= |s|
    ensures from <= i <= |s|
    ensures forall j :: from <= j < i ==> !Frontier(edges, s[j], visited)
    ensures i < |s| ==> Frontier(edges, s[i], visited)
    decreases |s| - from
  {
    if from == |s| || Frontier(edges, s[from], visited) then from else Next(s, edges, visited, from + 1)
  }

  ghost function Endpoints(edges: Edges): set<Name> {
    (set k | k in edges :: k.from) + (set k | k in edges :: k.to)
  }

  ghost function Unvisited(edges: Edges, visited: set<Name>): set<Name> {
    Endpoints(edges) - visited
  }

  /** Prim's algorithm: keep taking the first frontier edge until there is none. */
  ghost function Grow(s: seq<Edge>, edges: Edges, visited: set<Name>, tree: set<EdgeKey>): set<EdgeKey>
    decreases |Unvisited(edges, visited)|
  {
    var i := Next(s, edges, visited);
    if i == |s| then tree else
      GrowVisits(edges, s[i], visited);
      Grow(s, edges, visited + {s[i].from, s[i].to}, tree + Both(s[i].Key()))
  }

  lemma GrowVisits(edges: Edges, e: Edge, visited: set<Name>)
    requires Frontier(edges, e, visited)
    ensures |Unvisited(edges, visited + {e.from, e.to})| < |Unvisited(edges, visited)|
  {
    var v := if e.from in visited then e.to else e.from;
    assert e.Key() in edges;
    CardinalityBelow(Unvisited(edges, visited + {e.from, e.to}), Unvisited(edges, visited), v);
  }

  /** `r` is one connected component of the two-way links. */
  ghost predicate Component(edges: Edges, r: set<Name>) {
    && (forall k :: k in Links(edges) ==> (k.from in r <==> k.to in r))
    && Connecting(Inside(Links(edges), r), r)
  }

  /** A link costs what the cheaper of its two directions costs. */
  ghost function LinkWeight(edges: Edges, k: EdgeKey): int {
    if !TwoWay(edges, k) then 0
    else if edges[k].weight <= edges[k.Reverse()].weight then edges[k].weight
    else edges[k.Reverse()].weight
  }

  /** Each link is counted once in each direction. */
  ghost function TotalWeight(edges: Edges, t: set<EdgeKey>): int {
    Sum(t, k => LinkWeight(edges, k))
  }

  /** What the scan has built so far: a spanning tree of the visited nodes, made of two-way links. */
  ghost predicate PartialTree(edges: Edges, visited: set<Name>, tree: set<EdgeKey>) {
    SpanningTree(tree, visited) && tree <= Links(edges)
  }

  lemma CutsStayBridged(visited: set<Name>, tree: set<EdgeKey>, k: EdgeKey, v: Name)
    requires Connecting(tree, visited) && Within(tree, visited) && v !in visited
    requires (k.from in visited && k.to == v) || (k.to in visited && k.from == v)
    ensures Connecting(tree + Both(k), visited + {v})
  {
    forall c: set<Name> | c != {} && c < visited + {v} ensures Bridged(tree + Both(k), c) {
      var here := c * visited;
      if here != {} && here != visited {
        assert Bridged(tree, here);
        var l :| l in tree && Crosses(l, here);
        assert l in tree + Both(k) && Crosses(l, c);
      } else {
        assert here == {} ==> c == {v};
        assert here == visited ==> c == visited;
        assert k in tree + Both(k) && Crosses(k, c);
      }
    }
  }

  lemma PartialTreeGrows(edges: Edges, visited: set<Name>, tree: set<EdgeKey>, e: Edge)
    requires PartialTree(edges, visited, tree) && Frontier(edges, e, visited)
    ensures PartialTree(edges, visited + {e.from, e.to}, tree + Both(e.Key()))
  {
    var v := if e.from in visited then e.to else e.from;
    assert visited + {v} == visited + {e.from, e.to};
    CutsStayBridged(visited, tree, e.Key(), v);
    assert e.Key() != e.Key().Reverse();
    assert tree !! Both(e.Key());
    assert Symmetric(tree + Both(e.Key()));
  }

  /** As long as the scan has not covered its component there is a frontier edge to find. */
  lemma FrontierExists(s: seq<Edge>, edges: Edges, r: set<Name>, visited: set<Name>)
    requires WellKeyed(edges) && ByWeight(s, edges) && Component(edges, r)
    requires visited != {} && visited < r
    ensures Next(s, edges, visited) < |s|
  {
    assert Bridged(Inside(Links(edges), r), visited);
    var k :| k in Inside(Links(edges), r) && Crosses(k, visited);
    assert edges[k] in s;
    var i :| 0 <= i < |s| && s[i] == edges[k];
    assert Frontier(edges, s[i], visited);
  }

  /** The tree the scan ends with spans exactly the component it started in. */
  lemma {:induction false} GrowSpans(s: seq<Edge>, edges: Edges, r: set<Name>, visited: set<Name>, tree: set<EdgeKey>)
    requires WellKeyed(edges) && ByWeight(s, edges) && Component(edges, r)
    requires visited != {} && visited <= r && PartialTree(edges, visited, tree)
    ensures PartialTree(edges, r, Grow(s, edges, visited, tree))
    decreases |Unvisited(edges, visited)|
  {
    var i := Next(s, edges, visited);
    if i < |s| {
      var e := s[i];
      GrowVisits(edges, e, visited);
      PartialTreeGrows(edges, visited, tree, e);
      assert e.Key() in Links(edges);
      GrowSpans(s, edges, r, visited + {e.from, e.to}, tree + Both(e.Key()));
    } else {
      if visited != r { FrontierExists(s, edges, r, visited); }
    }
  }

  /** The first frontier edge in weight order is the cheapest link over the cut. */
  lemma NextIsCheapest(s: seq<Edge>, edges: Edges, visited: set<Name>, i: nat, f: EdgeKey)
    requires WellKeyed(edges) && ByWeight(s, edges) && i == Next(s, edges, visited) < |s|
    requires TwoWay(edges, f) && Crosses(f, visited)
    ensures LinkWeight(edges, s[i].Key()) <= LinkWeight(edges, f)
  {
    var there, back := edges[f], edges[f.Reverse()];
    assert there in s && back in s;
    var a :| 0 <= a < |s| && s[a] == there;
    var b :| 0 <= b < |s| && s[b] == back;
    assert Frontier(edges, s[a], visited) && Frontier(edges, s[b], visited);
    assert i <= a && i <= b;
    assert s[i] in edges.Values;
    hide NameLess;
    assert i < a ==> KeyBefore(edges, s[i].Key(), s[a].Key());
    assert i < b ==> KeyBefore(edges, s[i].Key(), s[b].Key());
  }

  lemma SwapKeepsShape(edges: Edges, t: set<EdgeKey>, f: EdgeKey, e: EdgeKey)
    requires Symmetric(t) && t <= Links(edges) && TwoWay(edges, e)
    ensures Symmetric(Swap(t, f, e)) && Swap(t, f, e) <= Links(edges)
  {
    assert forall k: EdgeKey :: k.Reverse().Reverse() == k;
    forall k | k in Swap(t, f, e) ensures k.Reverse() in Swap(t, f, e) {
      assert k in t ==> k.Reverse() in t;
    }
  }

  lemma SwapWeight(edges: Edges, t: set<EdgeKey>, f: EdgeKey, e: EdgeKey)
    requires f in t && f.Reverse() in t && e !in t && e.Reverse() !in t && f.from != f.to && e.from != e.to
    ensures TotalWeight(edges, Swap(t, f, e)) == TotalWeight(edges, t) - 2 * LinkWeight(edges, f)
              + 2 * LinkWeight(edges, e)
    ensures |Swap(t, f, e)| == |t|
  {
    var w := k => LinkWeight(edges, k);
    SymmetricWeight(edges, f);
    SymmetricWeight(edges, e);
    hide LinkWeight, Sum;
    SumTake(t, f, w);
    SumTake(t - {f}, f.Reverse(), w);
    var rest := t - {f} - {f.Reverse()};
    SumPut(rest, e, w);
    SumPut(rest + {e}, e.Reverse(), w);
    assert Swap(t, f, e) == rest + {e} + {e.Reverse()};
  }

  lemma SymmetricWeight(edges: Edges, k: EdgeKey)
    ensures LinkWeight(edges, k) == LinkWeight(edges, k.Reverse())
  {
    assert k.Reverse().Reverse() == k;
  }

  /** No spanning tree is lighter than the one the scan grows, given any spanning tree that extends what it has. */
  lemma {:induction false} GrowIsMinimal(s: seq<Edge>, edges: Edges, r: set<Name>, visited: set<Name>,
      tree: set<EdgeKey>, other: set<EdgeKey>)
    requires WellKeyed(edges) && ByWeight(s, edges) && Component(edges, r)
    requires visited != {} && visited <= r && PartialTree(edges, visited, tree)
    requires PartialTree(edges, r, other) && tree <= other
    ensures TotalWeight(edges, Grow(s, edges, visited, tree)) <= TotalWeight(edges, other)
    decreases |Unvisited(edges, visited)|
  {
    var i := Next(s, edges, visited);
    if i < |s| {
      var e := s[i];
      var k := e.Key();
      GrowVisits(edges, e, visited);
      PartialTreeGrows(edges, visited, tree, e);
      assert k in Links(edges);
      if k in other {
        GrowIsMinimal(s, edges, r, visited + {e.from, e.to}, tree + Both(k), other);
      } else {
        var f := FindExchange(other, r, visited, k);
        assert k.Reverse() !in other by { assert k.Reverse().Reverse() == k; }
        SwapWeight(edges, other, f, k);
        SwapKeepsShape(edges, other, f, k);
        NextIsCheapest(s, edges, visited, i, f);
        GrowIsMinimal(s, edges, r, visited + {e.from, e.to}, tree + Both(k), Swap(other, f, k));
      }
    } else {
      if visited != r { FrontierExists(s, edges, r, visited); }
      SubsetCardinality(tree, other);
    }
  }

  ghost predicate MinimumSpanningTree(edges: Edges, r: set<Name>, t: set<EdgeKey>) {
    && SpanningTree(t, r) && t <= Links(edges)
    && forall other :: SpanningTree(other, r) && other <= Links(edges)
                       ==> TotalWeight(edges, t) <= TotalWeight(edges, other)
  }

  /** Started anywhere in a component, the scan returns a minimum spanning tree of that component. */
  lemma ScanFindsMinimumSpanningTree(s: seq<Edge>, edges: Edges, r: set<Name>, start: Name)
    requires WellKeyed(edges) && ByWeight(s, edges) && Component(edges, r) && start in r
    ensures MinimumSpanningTree(edges, r, Grow(s, edges, {start}, {}))
  {
    assert forall c: set<Name> :: c < {start} ==> c == {};
    GrowSpans(s, edges, r, {start}, {});
    forall other | SpanningTree(other, r) && other <= Links(edges)
      ensures TotalWeight(edges, Grow(s, edges, {start}, {})) <= TotalWeight(edges, other)
    {
      GrowIsMinimal(s, edges, r, {start}, {}, other);
    }
  }

  /** The first edge, at or after `from`, that leaves a reachable node. */
  function FirstReachable(s: seq<Edge>, reachable: set<Name>, from: nat := 0): (i: nat)
    requires from <= |s|
    ensures from <= i <= |s|
    ensures forall j :: from <= j < i ==> s[j].from !in reachable
    ensures i < |s| ==> s[i].from in reachable
    decreases |s| - from
  {
    if from == |s| || s[from].from in reachable then from else FirstReachable(s, reachable, from + 1)
  }

  /** The whole of `mst_kruskal`: a function of the edges and of which nodes are reachable, nothing else. */
  ghost function Kruskal(edges: Edges, reachable: set<Name>): set<EdgeKey> {
    var s := WeightSorted(edges);
    var i := FirstReachable(s, reachable);
    if i == |s| then {} else Grow(s, edges, {s[i].from}, {})
  }

  /** When the reachable nodes form one component, the marked links are a minimum spanning tree of exactly them. */
  lemma KruskalIsMinimumSpanningTree(edges: Edges, r: set<Name>)
    requires WellKeyed(edges) && Component(edges, r) && r != {}
    ensures MinimumSpanningTree(edges, r, Kruskal(edges, r))
  {
    var s := WeightSorted(edges);
    WeightSortedIsByWeight(edges);
    var i := FirstReachable(s, r);
    if i < |s| {
      ScanFindsMinimumSpanningTree(s, edges, r, s[i].from);
    } else {
      forall k | k in Links(edges) ensures k.from !in r {
        assert edges[k] in s;
      }
      assert Inside(Links(edges), r) == {};
      LonelyComponent(edges, r);
    }
  }

  lemma LonelyComponent(edges: Edges, r: set<Name>)
    requires r != {} && Connecting({}, r)
    ensures MinimumSpanningTree(edges, r, {})
  {
    var n :| n in r;
    assert !Bridged({}, {n});
    assert !({n} < r);
    assert r == {n};
    forall other | SpanningTree(other, r) && other <= Links(edges)
      ensures TotalWeight(edges, {}) <= TotalWeight(edges, other)
    {
      assert |other| == 0;
    }
  }

  /** The graphs hold the same edges out of `r`, and no two-way link leaves `r`. */
  ghost predicate SameEdgesFrom(r: set<Name>, a: Edges, b: Edges) {
    && (forall k: EdgeKey :: k.from in r ==> (k in a <==> k in b) && (k in a ==> a[k] == b[k]))
    && (forall k: EdgeKey :: k.from in r && TwoWay(a, k) ==> k.to in r)
    && (forall k: EdgeKey :: k.from in r && TwoWay(b, k) ==> k.to in r)
  }

  lemma LeastIsLeast(s: seq<Edge>, t: seq<Edge>, a: Edges, b: Edges, i: nat, j: nat)
    requires ByWeight(s, a) && ByWeight(t, b) && WellKeyed(a) && WellKeyed(b) && i < |s| && j < |t|
    requires s[i] in t && t[j] in s
    requires forall k :: 0 <= k < i ==> s[k] != t[j]
    requires forall k :: 0 <= k < j ==> t[k] != s[i]
    ensures s[i] == t[j]
  {
    var m :| 0 <= m < |t| && t[m] == s[i];
    var n :| 0 <= n < |s| && s[n] == t[j];
    var p, q := s[i].Key(), t[j].Key();
    assert s[i] in a.Values && s[n] in a.Values && t[j] in b.Values && t[m] in b.Values;
    NameOrder();
    hide NameLess;
    assert j < m ==> KeyBefore(b, q, p);
    assert i < n ==> KeyBefore(a, p, q);
  }

  lemma NextAgrees(s: seq<Edge>, t: seq<Edge>, a: Edges, b: Edges, r: set<Name>, visited: set<Name>)
    requires ByWeight(s, a) && ByWeight(t, b) && WellKeyed(a) && WellKeyed(b) && SameEdgesFrom(r, a, b) && visited <= r
    ensures var i, j := Next(s, a, visited), Next(t, b, visited);
            (i < |s| <==> j < |t|) && (i < |s| ==> s[i] == t[j] && s[i].from in r && s[i].to in r)
  {
    hide KeyBefore;
    FrontierAgrees(s, t, a, b, r, visited);
    FrontierAgrees(t, s, b, a, r, visited);
    var i, j := Next(s, a, visited), Next(t, b, visited);
    if i < |s| && j < |t| {
      LeastIsLeast(s, t, a, b, i, j);
    }
  }

  lemma FrontierAgrees(s: seq<Edge>, t: seq<Edge>, a: Edges, b: Edges, r: set<Name>, visited: set<Name>)
    requires ByWeight(s, a) && ByWeight(t, b) && WellKeyed(a) && WellKeyed(b) && SameEdgesFrom(r, a, b) && visited <= r
    ensures forall i :: 0 <= i < |s| && Frontier(a, s[i], visited)
              ==> s[i] in t && Frontier(b, s[i], visited) && s[i].from in r && s[i].to in r
  {
    hide KeyBefore;
    forall i | 0 <= i < |s| && Frontier(a, s[i], visited)
      ensures s[i] in t && Frontier(b, s[i], visited) && s[i].from in r && s[i].to in r
    {
      var k := s[i].Key();
      assert s[i] in a.Values && a[k] == s[i];
      assert k.Reverse().Reverse() == k && TwoWay(a, k.Reverse());
      assert k.from in r && k.to in r;
      assert b[k] == s[i] && b[k] in b.Values;
    }
  }

  lemma {:induction false} GrowAgrees(s: seq<Edge>, t: seq<Edge>, a: Edges, b: Edges, r: set<Name>, visited: set<Name>,
      tree: set<EdgeKey>)
    requires ByWeight(s, a) && ByWeight(t, b) && WellKeyed(a) && WellKeyed(b) && SameEdgesFrom(r, a, b) && visited <= r
    ensures Grow(s, a, visited, tree) == Grow(t, b, visited, tree)
    decreases |Unvisited(a, visited)|
  {
    NextAgrees(s, t, a, b, r, visited);
    var i := Next(s, a, visited);
    hide ByWeight, SameEdgesFrom;
    if i >= |s| {
    } else {
      GrowVisits(a, s[i], visited);
      GrowAgrees(s, t, a, b, r, visited + {s[i].from, s[i].to}, tree + Both(s[i].Key()));
    }
  }

  /** Graphs that hold the same edges out of the reachable nodes mark the same tree. */
  lemma KruskalAgrees(a: Edges, b: Edges, r: set<Name>)
    requires WellKeyed(a) && WellKeyed(b) && SameEdgesFrom(r, a, b)
    ensures Kruskal(a, r) == Kruskal(b, r)
  {
    var s, t := WeightSorted(a), WeightSorted(b);
    WeightSortedIsByWeight(a);
    WeightSortedIsByWeight(b);
    hide WeightSorted, KeyBefore, Grow, FirstReachable, ByWeight, SameEdgesFrom;
    FirstAgrees(s, t, a, b, r);
    var i := FirstReachable(s, r);
    if i < |s| {
      GrowAgrees(s, t, a, b, r, {s[i].from}, {});
    }
  }

  lemma FirstAgrees(s: seq<Edge>, t: seq<Edge>, a: Edges, b: Edges, r: set<Name>)
    requires ByWeight(s, a) && ByWeight(t, b) && WellKeyed(a) && WellKeyed(b) && SameEdgesFrom(r, a, b)
    ensures var i, j := FirstReachable(s, r), FirstReachable(t, r);
            (i < |s| <==> j < |t|) && (i < |s| ==> s[i] == t[j])
  {
    var i, j := FirstReachable(s, r), FirstReachable(t, r);
    LeavingAgrees(s, t, a, b, r);
    LeavingAgrees(t, s, b, a, r);
    hide KeyBefore, FirstReachable;
    if i < |s| && j < |t| {
      LeastIsLeast(s, t, a, b, i, j);
    }
  }

  lemma LeavingAgrees(s: seq<Edge>, t: seq<Edge>, a: Edges, b: Edges, r: set<Name>)
    requires ByWeight(s, a) && ByWeight(t, b) && WellKeyed(a) && WellKeyed(b) && SameEdgesFrom(r, a, b)
    ensures forall i :: 0 <= i < |s| && s[i].from in r ==> s[i] in t
  {
    hide KeyBefore;
    forall i | 0 <= i < |s| && s[i].from in r ensures s[i] in t {
      assert s[i] in a.Values && a[s[i].Key()] == s[i];
      assert b[s[i].Key()] == s[i] && s[i] in b.Values;
    }
  }

  lemma ComponentInside(edges: Edges, a: set<Name>, b: set<Name>, n: Name)
    requires Component(edges, a) && Component(edges, b) && n in a && n in b
    ensures a <= b
  {
    var c := a * b;
    assert n in c;
    forall k | k in Inside(Links(edges), a) ensures !Crosses(k, c) {
    }
    assert !Bridged(Inside(Links(edges), a), c);
    assert !(c < a);
  }

  /** Two components with a node in common are the same. */
  lemma ComponentIsUnique(edges: Edges, r: set<Name>, s: set<Name>, x: Name)
    requires Component(edges, r) && Component(edges, s) && x in r && x in s
    ensures r == s
  {
    ComponentInside(edges, r, s, x);
    ComponentInside(edges, s, r, x);
  }
}
