/** Spanning trees of undirected graphs. A link is held as two directed keys, as `mst_edges` holds it, and
    connectedness is stated by cuts: no proper part of the nodes is cut off from the rest. */
module Trees {
  import opened Names
  import opened Topology

  ghost predicate Symmetric(t: set<EdgeKey>) {
    forall k :: k in t ==> k.Reverse() in t
  }

  ghost predicate Within(t: set<EdgeKey>, r: set<Name>) {
    forall k :: k in t ==> k.from in r && k.to in r
  }

  predicate Crosses(k: EdgeKey, c: set<Name>) {
    (k.from in c) != (k.to in c)
  }

  ghost predicate Bridged(t: set<EdgeKey>, c: set<Name>) {
    exists k :: k in t && Crosses(k, c)
  }

  ghost predicate Connecting(t: set<EdgeKey>, r: set<Name>) {
    forall c: set<Name> :: c != {} && c < r ==> Bridged(t, c)
  }

  /** Connected, on exactly the nodes `r`, with one link fewer than there are nodes. */
  ghost predicate SpanningTree(t: set<EdgeKey>, r: set<Name>) {
    Symmetric(t) && Within(t, r) && Connecting(t, r) && |t| == 2 * (|r| - 1)
  }

  ghost function Both(k: EdgeKey): set<EdgeKey> { {k, k.Reverse()} }

  ghost function Crossing(t: set<EdgeKey>, c: set<Name>): set<EdgeKey> {
    set k | k in t && Crosses(k, c)
  }

  ghost function Swap(t: set<EdgeKey>, f: EdgeKey, e: EdgeKey): set<EdgeKey> { t - Both(f) + Both(e) }

  /** Exchange: if `e` crosses the cut `c`, some link of `t` across `c` can be replaced by `e` without
      disconnecting anything. When a candidate fails, it is the only link of `t` over another cut `d`,
      and combining the two cuts leaves fewer candidates. */
  lemma {:induction false} FindExchange(t: set<EdgeKey>, r: set<Name>, c: set<Name>, e: EdgeKey) returns (f: EdgeKey)
    requires Symmetric(t) && Connecting(t, r)
    requires e.from in r && e.to in r && c <= r && Crosses(e, c)
    ensures f in t && Crosses(f, c) && Connecting(Swap(t, f, e), r)
    decreases |Crossing(t, c)|
  {
    assert c != {} && c < r;
    assert Bridged(t, c);
    f :| f in t && Crosses(f, c);
    if Connecting(Swap(t, f, e), r) {
    } else {
      var d: set<Name> :| d != {} && d < r && !Bridged(Swap(t, f, e), d);
      assert Bridged(t, d);
      var g :| g in t && Crosses(g, d);
      assert g in Both(f) by { assert g in t - Both(f) ==> g in Swap(t, f, e); }
      assert e in Swap(t, f, e);
      var both := (c - d) + (d - c);
      forall k | k in t ensures Crosses(k, both) ==> Crosses(k, c) && k !in Both(f) {
        if k !in Both(f) { assert k in Swap(t, f, e); }
      }
      assert Crossing(t, both) <= Crossing(t, c) - {f};
      CardinalityBelow(Crossing(t, both), Crossing(t, c), f);
      f := FindExchange(t, r, both, e);
    }
  }

  lemma CardinalityBelow<T>(a: set<T>, b: set<T>, x: T)
    requires x in b && a <= b - {x}
    ensures |a| < |b|
  {
    SubsetCardinality(a, b - {x});
  }

  lemma {:induction false} SubsetCardinality<T>(a: set<T>, b: set<T>)
    requires a <= b
    ensures |a| <= |b|
    ensures |a| == |b| ==> a == b
  {
    if a == {} {
    } else {
      var x :| x in a;
      SubsetCardinality(a - {x}, b - {x});
    }
  }

  /** The links of `t` among the nodes of `a`. */
  ghost function Inside(t: set<EdgeKey>, a: set<Name>): set<EdgeKey> {
    set k | k in t && k.from in a && k.to in a
  }

  /** Adding a node that is linked to `a` adds at least one link, two for each different neighbour. */
  lemma GrowInside(t: set<EdgeKey>, a: set<Name>, v: Name, us: set<Name>)
    requires Symmetric(t) && v !in a && us <= a
    requires forall u :: u in us ==> EdgeKey(u, v) in t
    ensures |Inside(t, a + {v})| >= |Inside(t, a)| + 2 * |us|
  {
    var there := set u | u in us :: EdgeKey(u, v);
    var back := set u | u in us :: EdgeKey(v, u);
    KeysTo(us, v);
    KeysFrom(us, v);
    assert forall k :: k in back ==> k.Reverse() in t && k.Reverse().Reverse() == k;
    SubsetCardinality(Inside(t, a) + there + back, Inside(t, a + {v}));
    assert Inside(t, a) !! there;
    assert (Inside(t, a) + there) !! back;
  }

  lemma {:induction false} KeysTo(us: set<Name>, v: Name)
    ensures |set u | u in us :: EdgeKey(u, v)| == |us|
  {
    if us == {} {
    } else {
      var w :| w in us;
      KeysTo(us - {w}, v);
      assert (set u | u in us :: EdgeKey(u, v)) == (set u | u in us - {w} :: EdgeKey(u, v)) + {EdgeKey(w, v)};
    }
  }

  lemma {:induction false} KeysFrom(us: set<Name>, v: Name)
    ensures |set u | u in us :: EdgeKey(v, u)| == |us|
  {
    if us == {} {
    } else {
      var w :| w in us;
      KeysFrom(us - {w}, v);
      assert (set u | u in us :: EdgeKey(v, u)) == (set u | u in us - {w} :: EdgeKey(v, u)) + {EdgeKey(v, w)};
    }
  }

  /** In a spanning tree no part of the nodes holds as many links as nodes: trees have no cycles. */
  lemma {:induction false} TreePartIsForest(t: set<EdgeKey>, r: set<Name>, a: set<Name>)
    requires SpanningTree(t, r) && a != {} && a <= r
    ensures |Inside(t, a)| <= 2 * (|a| - 1)
    decreases |r - a|
  {
    if a == r {
      assert Inside(t, a) == t;
    } else {
      assert Bridged(t, a);
      var k :| k in t && Crosses(k, a);
      var v := if k.from in a then k.to else k.from;
      var u := if k.from in a then k.from else k.to;
      assert EdgeKey(u, v) == k || EdgeKey(u, v) == k.Reverse();
      GrowInside(t, a, v, {u});
      assert r - (a + {v}) < r - a;
      TreePartIsForest(t, r, a + {v});
    }
  }

  /** A tree touches a connected part of itself from outside by at most one link. */
  lemma OneLinkIn(t: set<EdgeKey>, r: set<Name>, a: set<Name>, v: Name, u: Name, w: Name)
    requires SpanningTree(t, r) && a <= r && v in r && v !in a
    requires |Inside(t, a)| >= 2 * (|a| - 1)
    requires u in a && w in a && EdgeKey(u, v) in t && EdgeKey(w, v) in t
    ensures u == w
  {
    if u != w {
      GrowInside(t, a, v, {u, w});
      TreePartIsForest(t, r, a + {v});
    }
  }
}
