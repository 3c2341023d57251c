/** The route search depends only on the two-way links among the nodes it can reach: two graphs that agree on those
    are searched in lockstep. */
module Agreement {
  import opened Basics
  import opened Names
  import opened Order
  import opened Topology
  import opened Routes

  /** The search cannot tell these two nodes apart; once it has visited them neither can their options. */
  ghost predicate SameForSearch(myself: Name, n: Name, a: Node, b: Node) {
    && a.status.visited == b.status.visited && a.status.indirect == b.status.indirect && a.route == b.route
    && (a.status.visited && n != myself ==> a.options == b.options)
  }

  ghost predicate NodesAgree(myself: Name, r: set<Name>, a: Nodes, b: Nodes) {
    forall n :: n in r ==> n in a && n in b && SameForSearch(myself, n, a[n], b[n])
  }

  ghost predicate Agree(myself: Name, r: set<Name>, s: Search, t: Search) {
    NodesAgree(myself, r, s.nodes, t.nodes) && s.queue == t.queue && forall n :: n in s.queue ==> n in r
  }

  /** `r` is closed under two-way links in both graphs, and within `r` they are the same links. */
  ghost predicate LinksAgree(r: set<Name>, a: Edges, b: Edges) {
    forall u, v :: u in r ==>
      && (TwoWay(a, EdgeKey(u, v)) <==> TwoWay(b, EdgeKey(u, v)))
      && (TwoWay(a, EdgeKey(u, v)) ==> v in r && a[EdgeKey(u, v)] == b[EdgeKey(u, v)])
  }

  /** The edges from `u` to each of `names`, where there is one, relaxed in turn. */
  ghost function RelaxTo(g: Mesh, src: SourceState, u: Name, names: seq<Name>, s: Search): Search {
    if names == [] then s
    else
      var before := RelaxTo(g, src, u, names[..|names| - 1], s);
      var k := EdgeKey(u, names[|names| - 1]);
      if k in g.edges then RelaxEdge(g, src, g.edges[k], before) else before
  }

  ghost function TwoWayOnly(edges: Edges, u: Name, names: seq<Name>): (r: seq<Name>)
    ensures forall v :: v in r <==> v in names && TwoWay(edges, EdgeKey(u, v))
  {
    if names == [] then []
    else
      assert names == names[..|names| - 1] + [names[|names| - 1]];
      var v := names[|names| - 1];
      TwoWayOnly(edges, u, names[..|names| - 1]) + (if TwoWay(edges, EdgeKey(u, v)) then [v] else [])
  }

  lemma {:induction false} RelaxFirstIsRelaxTo(g: Mesh, src: SourceState, u: Name, i: nat, s: Search)
    requires i <= |Targets(g.edges, u)|
    ensures RelaxFirst(g, src, OutEdges(g.edges, u), i, s) == RelaxTo(g, src, u, Targets(g.edges, u)[..i], s)
  {
    hide RelaxEdge;
    if i == 0 {
      assert Targets(g.edges, u)[..0] == [];
    } else {
      hide SortNames, NameLess;
      RelaxFirstIsRelaxTo(g, src, u, i - 1, s);
      var names := Targets(g.edges, u);
      assert names[..i][..i - 1] == names[..i - 1];
      assert names[i - 1] in names;
    }
  }

  lemma OneWayIsSkipped(g: Mesh, src: SourceState, k: EdgeKey, s: Search)
    requires WellKeyed(g.edges) && !TwoWay(g.edges, k)
    ensures k in g.edges ==> RelaxEdge(g, src, g.edges[k], s) == s
  {
  }

  /** One-way edges are skipped, so leaving them out changes nothing. */
  lemma {:induction false} OneWayEdgesAreSkipped(g: Mesh, src: SourceState, u: Name, names: seq<Name>, s: Search)
    requires WellKeyed(g.edges)
    ensures RelaxTo(g, src, u, names, s) == RelaxTo(g, src, u, TwoWayOnly(g.edges, u, names), s)
  {
    hide RelaxEdge, WellKeyed;
    if names == [] {
    } else {
      var front, v := names[..|names| - 1], names[|names| - 1];
      OneWayEdgesAreSkipped(g, src, u, front, s);
      var kept := TwoWayOnly(g.edges, u, front);
      if TwoWay(g.edges, EdgeKey(u, v)) {
        assert TwoWayOnly(g.edges, u, names) == kept + [v];
        assert (kept + [v])[..|kept + [v]| - 1] == kept;
      } else {
        assert TwoWayOnly(g.edges, u, names) == kept;
        OneWayIsSkipped(g, src, EdgeKey(u, v), RelaxTo(g, src, u, front, s));
      }
    }
  }

  lemma {:induction false} TwoWayOnlyAscends(edges: Edges, u: Name, names: seq<Name>)
    requires Ascending(names, NameLess)
    ensures Ascending(TwoWayOnly(edges, u, names), NameLess)
  {
    hide NameLess;
    if names == [] {
    } else {
      var front, v := names[..|names| - 1], names[|names| - 1];
      TwoWayOnlyAscends(edges, u, front);
      var kept := TwoWayOnly(edges, u, front);
      forall i | 0 <= i < |kept| ensures NameLess(kept[i], v) {
        assert kept[i] in front;
        var j :| 0 <= j < |front| && front[j] == kept[i];
        assert NameLess(names[j], names[|names| - 1]);
      }
    }
  }

  lemma SameTwoWayTargets(r: set<Name>, a: Edges, b: Edges, u: Name)
    requires LinksAgree(r, a, b) && u in r
    ensures TwoWayOnly(a, u, Targets(a, u)) == TwoWayOnly(b, u, Targets(b, u))
  {
    var p, q := TwoWayOnly(a, u, Targets(a, u)), TwoWayOnly(b, u, Targets(b, u));
    TwoWayOnlyAscends(a, u, Targets(a, u));
    TwoWayOnlyAscends(b, u, Targets(b, u));
    NameOrder();
    hide NameLess;
    forall v ensures v in p <==> v in q {
      assert TwoWay(a, EdgeKey(u, v)) ==> EdgeKey(u, v) in a && v in Targets(a, u);
      assert TwoWay(b, EdgeKey(u, v)) ==> EdgeKey(u, v) in b && v in Targets(b, u);
    }
    AscendingIsUnique(p, q, NameLess);
  }

  lemma RelaxAgrees(g: Mesh, h: Mesh, r: set<Name>, src: SourceState, e: Edge, s: Search, t: Search)
    requires g.myself == h.myself && Agree(g.myself, r, s, t) && e.to in r
    requires TwoWay(g.edges, e.Key()) && TwoWay(h.edges, e.Key())
    ensures Agree(g.myself, r, RelaxEdge(g, src, e, s), RelaxEdge(h, src, e, t))
  {
    assert SameForSearch(g.myself, e.to, s.nodes[e.to], t.nodes[e.to]);
  }

  lemma {:induction false} RelaxToAgrees(g: Mesh, h: Mesh, r: set<Name>, src: SourceState, u: Name, names: seq<Name>,
      s: Search, t: Search)
    requires g.myself == h.myself && WellKeyed(g.edges) && WellKeyed(h.edges) && LinksAgree(r, g.edges, h.edges)
    requires Agree(g.myself, r, s, t) && u in r
    requires forall v :: v in names ==> TwoWay(g.edges, EdgeKey(u, v))
    ensures Agree(g.myself, r, RelaxTo(g, src, u, names, s), RelaxTo(h, src, u, names, t))
  {
    hide RelaxEdge, Agree;
    if names == [] {
    } else {
      var front, v := names[..|names| - 1], names[|names| - 1];
      assert names == front + [v] && v in names;
      RelaxToAgrees(g, h, r, src, u, front, s, t);
      var k := EdgeKey(u, v);
      assert TwoWay(g.edges, k) && TwoWay(h.edges, k) && g.edges[k] == h.edges[k];
      RelaxAgrees(g, h, r, src, g.edges[k], RelaxTo(g, src, u, front, s), RelaxTo(h, src, u, front, t));
    }
  }

  lemma AgreeMeans(myself: Name, r: set<Name>, s: Search, t: Search)
    requires Agree(myself, r, s, t) && s.queue != []
    ensures var u := s.queue[0];
            && u in r && u in s.nodes && u in t.nodes && SourceOf(s.nodes[u]) == SourceOf(t.nodes[u])
            && Agree(myself, r, Search(s.nodes, s.queue[1..]), Search(t.nodes, t.queue[1..]))
  {
    var u := s.queue[0];
    assert u in s.queue;
    assert SameForSearch(myself, u, s.nodes[u], t.nodes[u]);
  }

  lemma RelaxFirstIsFiltered(g: Mesh, src: SourceState, u: Name, s: Search)
    requires WellKeyed(g.edges)
    ensures RelaxFirst(g, src, OutEdges(g.edges, u), |OutEdges(g.edges, u)|, s)
         == RelaxTo(g, src, u, TwoWayOnly(g.edges, u, Targets(g.edges, u)), s)
  {
    var names := Targets(g.edges, u);
    hide RelaxEdge, RelaxTo, RelaxFirst;
    RelaxFirstIsRelaxTo(g, src, u, |names|, s);
    assert names[..|names|] == names;
    OneWayEdgesAreSkipped(g, src, u, names, s);
  }

  lemma StepAgrees(g: Mesh, h: Mesh, r: set<Name>, s: Search, t: Search)
    requires g.myself == h.myself && WellKeyed(g.edges) && WellKeyed(h.edges) && LinksAgree(r, g.edges, h.edges)
    requires Agree(g.myself, r, s, t)
    ensures Agree(g.myself, r, Step(g, s), Step(h, t))
  {
    assert s.queue == t.queue;
    hide Agree, SourceOf, RelaxFirst, OutEdges, Targets, LinksAgree;
    if s.queue != [] {
      var u := s.queue[0];
      AgreeMeans(g.myself, r, s, t);
      if SourceOf(s.nodes[u]).Some? {
        var src := SourceOf(s.nodes[u]).value;
        RelaxFirstIsFiltered(g, src, u, Search(s.nodes, s.queue[1..]));
        RelaxFirstIsFiltered(h, src, u, Search(t.nodes, t.queue[1..]));
        SameTwoWayTargets(r, g.edges, h.edges, u);
        RelaxToAgrees(g, h, r, src, u, TwoWayOnly(g.edges, u, Targets(g.edges, u)),
                      Search(s.nodes, s.queue[1..]), Search(t.nodes, t.queue[1..]));
      }
    }
  }

  lemma {:induction false} IterateAgrees(g: Mesh, h: Mesh, r: set<Name>, s: Search, t: Search, n: nat)
    requires g.myself == h.myself && WellKeyed(g.edges) && WellKeyed(h.edges) && LinksAgree(r, g.edges, h.edges)
    requires Agree(g.myself, r, s, t)
    ensures Agree(g.myself, r, Iterate(g, s, n), Iterate(h, t, n))
  {
    hide Agree, Step, LinksAgree;
    if n == 0 {
    } else {
      IterateAgrees(g, h, r, s, t, n - 1);
      StepAgrees(g, h, r, Iterate(g, s, n - 1), Iterate(h, t, n - 1));
    }
  }

  /** Two searches of graphs with the same links around this node give its whole component the same routes. */
  lemma SearchesAgree(g: Mesh, h: Mesh, r: set<Name>, a: Nodes, b: Nodes, aResult: Nodes, bResult: Nodes)
    requires g.myself == h.myself && WellKeyed(g.edges) && WellKeyed(h.edges) && LinksAgree(r, g.edges, h.edges)
    requires g.myself in r && r <= a.Keys && r <= b.Keys
    requires SearchEnds(g, a, aResult) && SearchEnds(h, b, bResult)
    ensures NodesAgree(g.myself, r, aResult, bResult)
  {
    var s, t := Start(g, a), Start(h, b);
    var m: nat :| Iterate(g, s, m) == Search(aResult, []);
    var n: nat :| Iterate(h, t, n) == Search(bResult, []);
    assert Agree(g.myself, r, s, t);
    hide Start, LinksAgree, Iterate, NodesAgree;
    if m <= n {
      RestIsStable(g, s, m, n);
      IterateAgrees(g, h, r, s, t, n);
    } else {
      RestIsStable(h, t, n, m);
      IterateAgrees(g, h, r, s, t, m);
    }
  }
}
