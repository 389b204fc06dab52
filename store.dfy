/** The loader (`load_data_to_neo4j` in TP2/app/etl.py) over an abstract graph
    store: nodes merged on (label, id) or appended by CREATE, relationships
    merged between every pair of matched endpoints. */
module Store {
  import opened Values
  import opened Seqs
  import opened Records
  import opened Batching

  /** The business key a node is merged on: `MERGE (n:Label {id: $id})`. */
  datatype NodeKey = NodeKey(nodeLabel: Label, id: Value)

  /** A node made by `CREATE` because its `id` was falsy; it has no key and
      every run makes a new one. */
  datatype AnonNode = AnonNode(nodeLabel: Label, props: Props)

  /** Identity of a stored node. */
  datatype NodeRef = Keyed(key: NodeKey) | Anon(index: nat)

  /** A stored relationship; being a map key, there is at most one per
      (type, start, end). */
  datatype Edge = Edge(relType: RelType, start: NodeRef, end: NodeRef)

  /** Keyed nodes hold their properties other than `id`. */
  datatype Nodes = Nodes(keyed: map<NodeKey, Props>, anon: seq<AnonNode>)

  datatype Graph = Graph(nodes: Nodes, edges: map<Edge, Props>)

  // ---- writes to a map of property cells ----

  function Get<K>(m: map<K, Props>, k: K): Props
  {
    if k in m then m[k] else map[]
  }

  /** MERGE every cell in `cells` (creating it empty when absent), then SET `p` on it. */
  function WriteCells<K>(m: map<K, Props>, cells: set<K>, p: Props): (r: map<K, Props>)
    ensures r.Keys == m.Keys + cells
    ensures forall k :: k in cells ==> r[k] == Overlay(Get(m, k), p)
    ensures forall k :: k in m && k !in cells ==> r[k] == m[k]
  {
    map k | k in m.Keys + cells :: if k in cells then Overlay(Get(m, k), p) else m[k]
  }

  datatype Write<K> = Write(cells: set<K>, props: Props)

  function ApplyWrites<K>(m: map<K, Props>, ws: seq<Write<K>>): map<K, Props>
  {
    if ws == [] then m
    else
      var w := ws[|ws| - 1];
      WriteCells(ApplyWrites(m, ws[..|ws| - 1]), w.cells, w.props)
  }

  /** All SETs that `ws` applies to cell `k`, combined in order. */
  function Combined<K>(ws: seq<Write<K>>, k: K): Props
  {
    if ws == [] then map[]
    else
      var w := ws[|ws| - 1];
      var c := Combined(ws[..|ws| - 1], k);
      if k in w.cells then c + w.props else c
  }

  predicate Targeted<K>(ws: seq<Write<K>>, k: K)
  {
    exists i :: 0 <= i < |ws| && k in ws[i].cells
  }

  /** After a sequence of writes a cell exists iff it existed or was written,
      and holds its old properties under the combined SETs. */
  lemma {:induction false} ApplyWritesAt<K>(m: map<K, Props>, ws: seq<Write<K>>, k: K)
    ensures k in ApplyWrites(m, ws) <==> k in m || Targeted(ws, k)
    ensures Get(ApplyWrites(m, ws), k) == Overlay(Get(m, k), Combined(ws, k))
  {
    if ws == [] {
      OverlayNothing(Get(m, k));
    } else {
      var init, w := ws[..|ws| - 1], ws[|ws| - 1];
      ApplyWritesAt(m, init, k);
      if Targeted(init, k) {
        var i :| 0 <= i < |init| && k in init[i].cells;
        assert ws[i] == init[i];
      }
      if Targeted(ws, k) && k !in w.cells {
        var i :| 0 <= i < |ws| && k in ws[i].cells;
        assert init[i] == ws[i];
      }
      if k in w.cells {
        assert k in ws[|ws| - 1].cells;
        OverlayThen(Get(m, k), Combined(init, k), w.props);
      }
    }
  }

  /** Applying the same writes a second time changes nothing. */
  lemma ApplyWritesTwice<K>(m: map<K, Props>, ws: seq<Write<K>>)
    ensures ApplyWrites(ApplyWrites(m, ws), ws) == ApplyWrites(m, ws)
  {
    var once := ApplyWrites(m, ws);
    var twice := ApplyWrites(once, ws);
    forall k | k in twice ensures k in once && twice[k] == once[k] {
      ApplyWritesAt(m, ws, k);
      ApplyWritesAt(once, ws, k);
      OverlayIdempotent(Get(m, k), Combined(ws, k));
    }
    forall k | k in once ensures k in twice {
      ApplyWritesAt(once, ws, k);
    }
    assert twice.Keys == once.Keys;
  }

  // ---- MATCH ----

  /** All properties of a keyed node, `id` included. */
  function FullProps(k: NodeKey, p: Props): Props
  {
    p["id" := k.id]
  }

  /** `MATCH (a:Label {key: $value})`: every stored node with that label whose
      property `key` equals `value`; a null value matches nothing. */
  function Matches(ns: Nodes, l: Label, key: string, v: Value): (r: set<NodeRef>)
    ensures v == Null ==> r == {}
    ensures forall k :: key == "id" ==>
      (Keyed(k) in r <==> v != Null && k in ns.keyed && k.nodeLabel == l && k.id == v)
    ensures forall i: nat :: Anon(i) in r <==>
      v != Null && i < |ns.anon| && ns.anon[i].nodeLabel == l && key in ns.anon[i].props && ns.anon[i].props[key] == v
    ensures forall x :: x in r && x.Keyed? ==> x.key in ns.keyed && x.key.nodeLabel == l
  {
    if v == Null then {}
    else
      (set k | k in ns.keyed && k.nodeLabel == l && key in FullProps(k, ns.keyed[k])
                  && FullProps(k, ns.keyed[k])[key] == v :: Keyed(k))
      + (set i: nat | i < |ns.anon| && ns.anon[i].nodeLabel == l && key in ns.anon[i].props
                  && ns.anon[i].props[key] == v :: Anon(i))
  }

  /** The edges `MERGE (a)-[:TYPE]->(b)` touches: one per matched pair. */
  function Targets(ns: Nodes, r: RelRecord): (t: set<Edge>)
    ensures forall e :: e in t <==>
      e.relType == r.relType
      && e.start in Matches(ns, r.startLabel, r.startKey, r.startValue)
      && e.end in Matches(ns, r.endLabel, r.endKey, r.endValue)
    ensures Matches(ns, r.startLabel, r.startKey, r.startValue) == {} ==> t == {}
    ensures Matches(ns, r.endLabel, r.endKey, r.endValue) == {} ==> t == {}
  {
    set a, b | a in Matches(ns, r.startLabel, r.startKey, r.startValue)
            && b in Matches(ns, r.endLabel, r.endKey, r.endValue) :: Edge(r.relType, a, b)
  }

  // ---- one record ----

  function IdOf(n: NodeRecord): Value
  {
    Lookup(n.props, "id")
  }

  /** One item of `_create_nodes`. A truthy id merges the node on (label, id)
      and SETs its other listed properties, leaving unlisted ones alone; a
      falsy id CREATEs a fresh node. Nothing else changes. */
  function NodeStep(g: Graph, n: NodeRecord): (r: Graph)
    ensures r.edges == g.edges
    ensures Truthy(IdOf(n)) ==>
      var k := NodeKey(n.nodeLabel, IdOf(n));
      r.nodes.anon == g.nodes.anon
      && r.nodes.keyed.Keys == g.nodes.keyed.Keys + {k}
      && (forall k' :: k' in g.nodes.keyed && k' != k ==> r.nodes.keyed[k'] == g.nodes.keyed[k'])
      && (forall p :: p in n.props && p != "id" && n.props[p] != Null ==>
            p in r.nodes.keyed[k] && r.nodes.keyed[k][p] == n.props[p])
      && (forall p :: p in n.props && p != "id" && n.props[p] == Null ==> p !in r.nodes.keyed[k])
      && (forall p :: p in Get(g.nodes.keyed, k) && p !in n.props ==>
            p in r.nodes.keyed[k] && r.nodes.keyed[k][p] == g.nodes.keyed[k][p])
      && r.nodes.keyed[k] == Overlay(Get(g.nodes.keyed, k), n.props - {"id"})
    ensures !Truthy(IdOf(n)) ==>
      r.nodes.keyed == g.nodes.keyed
      && |r.nodes.anon| == |g.nodes.anon| + 1
      && r.nodes.anon[..|g.nodes.anon|] == g.nodes.anon
      && r.nodes.anon[|g.nodes.anon|].nodeLabel == n.nodeLabel
      && r.nodes.anon[|g.nodes.anon|].props == Overlay(map[], n.props)
  {
    var id := IdOf(n);
    if Truthy(id) then
      g.(nodes := g.nodes.(keyed := WriteCells(g.nodes.keyed, {NodeKey(n.nodeLabel, id)}, n.props - {"id"})))
    else
      g.(nodes := g.nodes.(anon := g.nodes.anon + [AnonNode(n.nodeLabel, Overlay(map[], n.props))]))
  }

  /** One item of `_create_relationships`: MATCH both endpoints, MERGE the
      edge between every matched pair and SET its listed properties. The
      nodes never change, so a missing endpoint is never created, and when
      either endpoint matches nothing no edge is created either. */
  function RelStep(g: Graph, rel: RelRecord): (r: Graph)
    ensures r.nodes == g.nodes
    ensures Targets(g.nodes, rel) == {} ==> r == g
    ensures forall e :: e in Targets(g.nodes, rel) ==>
      e in r.edges && r.edges[e] == Overlay(Get(g.edges, e), rel.props)
    ensures forall e :: e !in Targets(g.nodes, rel) ==>
      (e in r.edges <==> e in g.edges) && (e in g.edges ==> r.edges[e] == g.edges[e])
  {
    var r := g.(edges := WriteCells(g.edges, Targets(g.nodes, rel), rel.props));
    assert Targets(g.nodes, rel) == {} ==> r.edges == g.edges;
    r
  }

  // ---- sequences of records ----

  function ApplyNodes(g: Graph, ns: seq<NodeRecord>): Graph
  {
    if ns == [] then g else NodeStep(ApplyNodes(g, ns[..|ns| - 1]), ns[|ns| - 1])
  }

  function ApplyRels(g: Graph, rs: seq<RelRecord>): Graph
  {
    if rs == [] then g else RelStep(ApplyRels(g, rs[..|rs| - 1]), rs[|rs| - 1])
  }

  /** The whole load: every node first, then every relationship. */
  function LoadAll(g: Graph, ns: seq<NodeRecord>, rs: seq<RelRecord>): Graph
  {
    ApplyRels(ApplyNodes(g, ns), rs)
  }

  // ---- CREATEd nodes carry no truthy id ----

  /** No CREATEd node has a truthy `id`. MERGE on a truthy id looks only at
      keyed nodes, which agrees with the store exactly when this holds. */
  predicate AnonUnkeyed(g: Graph)
  {
    forall i :: 0 <= i < |g.nodes.anon| ==> !Truthy(Lookup(g.nodes.anon[i].props, "id"))
  }

  /** CREATE runs only for a falsy id, so one node record keeps the representation. */
  lemma NodeStepKeepsAnonUnkeyed(g: Graph, n: NodeRecord)
    requires AnonUnkeyed(g)
    ensures AnonUnkeyed(NodeStep(g, n))
  {
    if !Truthy(IdOf(n)) {
      var a := NodeStep(g, n).nodes.anon;
      assert a[..|g.nodes.anon|] == g.nodes.anon;
      forall i | 0 <= i < |a| ensures !Truthy(Lookup(a[i].props, "id")) {
        if i < |g.nodes.anon| {
          assert a[i] == g.nodes.anon[i];
        }
      }
    }
  }

  /** The whole load, from a store with no keyed CREATEd node (an empty one
      included), never makes one. */
  lemma {:induction false} LoadKeepsAnonUnkeyed(g: Graph, ns: seq<NodeRecord>, rs: seq<RelRecord>)
    requires AnonUnkeyed(g)
    ensures AnonUnkeyed(LoadAll(g, ns, rs))
    decreases |ns| + |rs|
  {
    if rs != [] {
      LoadKeepsAnonUnkeyed(g, ns, rs[..|rs| - 1]);
      assert LoadAll(g, ns, rs).nodes == LoadAll(g, ns, rs[..|rs| - 1]).nodes;
    } else if ns != [] {
      LoadKeepsAnonUnkeyed(g, ns[..|ns| - 1], []);
      NodeStepKeepsAnonUnkeyed(ApplyNodes(g, ns[..|ns| - 1]), ns[|ns| - 1]);
    }
  }

  lemma {:induction false} ApplyNodesConcat(g: Graph, a: seq<NodeRecord>, b: seq<NodeRecord>)
    ensures ApplyNodes(g, a + b) == ApplyNodes(ApplyNodes(g, a), b)
  {
    if b == [] {
      assert a + b == a;
    } else {
      var init, last := b[..|b| - 1], b[|b| - 1];
      assert (a + b)[..|a + b| - 1] == a + init;
      assert (a + b)[|a + b| - 1] == last;
      calc {
        ApplyNodes(g, a + b);
        NodeStep(ApplyNodes(g, a + init), last);
        { ApplyNodesConcat(g, a, init); }
        NodeStep(ApplyNodes(ApplyNodes(g, a), init), last);
        ApplyNodes(ApplyNodes(g, a), b);
      }
    }
  }

  lemma {:induction false} ApplyRelsConcat(g: Graph, a: seq<RelRecord>, b: seq<RelRecord>)
    ensures ApplyRels(g, a + b) == ApplyRels(ApplyRels(g, a), b)
  {
    if b == [] {
      assert a + b == a;
    } else {
      var init, last := b[..|b| - 1], b[|b| - 1];
      assert (a + b)[..|a + b| - 1] == a + init;
      assert (a + b)[|a + b| - 1] == last;
      calc {
        ApplyRels(g, a + b);
        RelStep(ApplyRels(g, a + init), last);
        { ApplyRelsConcat(g, a, init); }
        RelStep(ApplyRels(ApplyRels(g, a), init), last);
        ApplyRels(ApplyRels(g, a), b);
      }
    }
  }

  // ---- the loader as cell writes ----

  /** Every node record carries a truthy id, so every one is merged. */
  predicate AllKeyed(ns: seq<NodeRecord>)
  {
    forall i :: 0 <= i < |ns| ==> Truthy(IdOf(ns[i]))
  }

  function NodeWrites(ns: seq<NodeRecord>): (ws: seq<Write<NodeKey>>)
    ensures |ws| == |ns|
  {
    if ns == [] then []
    else
      var n := ns[|ns| - 1];
      NodeWrites(ns[..|ns| - 1]) + [Write({NodeKey(n.nodeLabel, IdOf(n))}, n.props - {"id"})]
  }

  function RelWrites(nodes: Nodes, rs: seq<RelRecord>): (ws: seq<Write<Edge>>)
    ensures |ws| == |rs|
  {
    if rs == [] then []
    else
      var r := rs[|rs| - 1];
      RelWrites(nodes, rs[..|rs| - 1]) + [Write(Targets(nodes, r), r.props)]
  }

  lemma {:induction false} RelWritesAt(nodes: Nodes, rs: seq<RelRecord>, i: nat)
    requires i < |rs|
    ensures RelWrites(nodes, rs)[i].cells == Targets(nodes, rs[i])
  {
    var init, last := rs[..|rs| - 1], rs[|rs| - 1];
    var ws := RelWrites(nodes, rs);
    assert ws == RelWrites(nodes, init) + [Write(Targets(nodes, last), last.props)];
    if i < |rs| - 1 {
      RelWritesAt(nodes, init, i);
      assert ws[i] == RelWrites(nodes, init)[i];
      assert init[i] == rs[i];
    } else {
      assert ws[i] == Write(Targets(nodes, last), last.props);
    }
  }

  /** With every id truthy, loading nodes only merges keyed nodes. */
  lemma {:induction false} NodesAsWrites(g: Graph, ns: seq<NodeRecord>)
    requires AllKeyed(ns)
    ensures ApplyNodes(g, ns) == Graph(Nodes(ApplyWrites(g.nodes.keyed, NodeWrites(ns)), g.nodes.anon), g.edges)
  {
    if ns != [] {
      NodesAsWrites(g, ns[..|ns| - 1]);
      assert Truthy(IdOf(ns[|ns| - 1]));
    }
  }

  /** Loading relationships leaves the nodes alone and merges edges between
      the nodes as they stood before. */
  lemma {:induction false} RelsAsWrites(g: Graph, rs: seq<RelRecord>)
    ensures ApplyRels(g, rs) == Graph(g.nodes, ApplyWrites(g.edges, RelWrites(g.nodes, rs)))
  {
    if rs != [] {
      RelsAsWrites(g, rs[..|rs| - 1]);
    }
  }

  // ---- idempotence ----

  /** Re-running node batches whose ids are all truthy leaves the store as one run left it. */
  lemma NodesIdempotent(g: Graph, ns: seq<NodeRecord>)
    requires AllKeyed(ns)
    ensures ApplyNodes(ApplyNodes(g, ns), ns) == ApplyNodes(g, ns)
  {
    NodesAsWrites(g, ns);
    NodesAsWrites(ApplyNodes(g, ns), ns);
    ApplyWritesTwice(g.nodes.keyed, NodeWrites(ns));
  }

  /** Re-running relationship batches creates no parallel duplicate and changes nothing. */
  lemma RelsIdempotent(g: Graph, rs: seq<RelRecord>)
    ensures ApplyRels(ApplyRels(g, rs), rs) == ApplyRels(g, rs)
  {
    RelsAsWrites(g, rs);
    RelsAsWrites(ApplyRels(g, rs), rs);
    ApplyWritesTwice(g.edges, RelWrites(g.nodes, rs));
  }

  /** A second full load of the same records, all ids truthy, leaves the
      store exactly as the first one left it. */
  lemma LoadIdempotent(g: Graph, ns: seq<NodeRecord>, rs: seq<RelRecord>)
    requires AllKeyed(ns)
    ensures LoadAll(LoadAll(g, ns, rs), ns, rs) == LoadAll(g, ns, rs)
  {
    var g1 := ApplyNodes(g, ns);
    var g2 := ApplyRels(g1, rs);
    RelsAsWrites(g1, rs);
    NodesAsWrites(g, ns);
    NodesAsWrites(g2, ns);
    ApplyWritesTwice(g.nodes.keyed, NodeWrites(ns));
    assert ApplyNodes(g2, ns) == g2;
    RelsIdempotent(g1, rs);
  }

  /** Indices of node records whose id is falsy. */
  function Unkeyed(ns: seq<NodeRecord>): set<nat>
  {
    set i: nat | i < |ns| && !Truthy(IdOf(ns[i]))
  }

  /** Each node record with a falsy id CREATEs one more node, on every run;
      no CREATEd node is ever removed. */
  lemma {:induction false} CreatedNodes(g: Graph, ns: seq<NodeRecord>)
    ensures |ApplyNodes(g, ns).nodes.anon| == |g.nodes.anon| + |Unkeyed(ns)|
    ensures ApplyNodes(g, ns).nodes.anon[..|g.nodes.anon|] == g.nodes.anon
  {
    if ns != [] {
      var init := ns[..|ns| - 1];
      CreatedNodes(g, init);
      UnkeyedSnoc(ns);
      PrefixOfPrefix(g.nodes.anon, ApplyNodes(g, init).nodes.anon, ApplyNodes(g, ns).nodes.anon);
    }
  }

  /** The last record adds its index to `Unkeyed` exactly when its id is falsy. */
  lemma UnkeyedSnoc(ns: seq<NodeRecord>)
    requires ns != []
    ensures |Unkeyed(ns)| == |Unkeyed(ns[..|ns| - 1])| + (if Truthy(IdOf(ns[|ns| - 1])) then 0 else 1)
  {
    var k := |ns| - 1;
    var init := ns[..k];
    assert forall i :: 0 <= i < k ==> init[i] == ns[i];
    if Truthy(IdOf(ns[k])) {
      assert Unkeyed(ns) == Unkeyed(init);
    } else {
      assert Unkeyed(ns) == Unkeyed(init) + {k};
      assert k !in Unkeyed(init);
    }
  }

  lemma PrefixOfPrefix<T>(x: seq<T>, y: seq<T>, z: seq<T>)
    requires |x| <= |y| <= |z| && y[..|x|] == x && z[..|y|] == y
    ensures z[..|x|] == x
  {
    assert z[..|x|] == z[..|y|][..|x|];
  }


  /** A node record with a falsy id makes a re-run add nodes: the load is then not idempotent. */
  lemma RerunDuplicatesUnkeyed(g: Graph, ns: seq<NodeRecord>, i: nat)
    requires i < |ns| && !Truthy(IdOf(ns[i]))
    ensures |ApplyNodes(ApplyNodes(g, ns), ns).nodes.anon| > |ApplyNodes(g, ns).nodes.anon|
    ensures ApplyNodes(ApplyNodes(g, ns), ns) != ApplyNodes(g, ns)
  {
    CreatedNodes(ApplyNodes(g, ns), ns);
    assert i in Unkeyed(ns);
  }

  // ---- load order ----

  /** Nodes are never removed: loaded keys stay, keys of loaded records appear. */
  lemma {:induction false} KeyedAfterNodes(g: Graph, ns: seq<NodeRecord>)
    ensures g.nodes.keyed.Keys <= ApplyNodes(g, ns).nodes.keyed.Keys
    ensures forall i :: 0 <= i < |ns| && Truthy(IdOf(ns[i])) ==>
      NodeKey(ns[i].nodeLabel, IdOf(ns[i])) in ApplyNodes(g, ns).nodes.keyed
  {
    if ns != [] {
      var k := |ns| - 1;
      KeyedAfterNodes(g, ns[..k]);
      forall i | 0 <= i < |ns| && Truthy(IdOf(ns[i]))
        ensures NodeKey(ns[i].nodeLabel, IdOf(ns[i])) in ApplyNodes(g, ns).nodes.keyed
      {
        if i < k { assert ns[..k][i] == ns[i]; }
      }
    }
  }

  /** Because every node batch is applied before any relationship batch, a
      relationship whose two endpoints are among the loaded node records (by
      label and truthy id) is present after the load, whatever order the
      records come in. */
  lemma LoadConnects(g: Graph, ns: seq<NodeRecord>, rs: seq<RelRecord>, j: nat, a: nat, b: nat)
    requires j < |rs| && a < |ns| && b < |ns|
    requires rs[j].startKey == "id" && rs[j].endKey == "id"
    requires ns[a].nodeLabel == rs[j].startLabel && IdOf(ns[a]) == rs[j].startValue && Truthy(rs[j].startValue)
    requires ns[b].nodeLabel == rs[j].endLabel && IdOf(ns[b]) == rs[j].endValue && Truthy(rs[j].endValue)
    ensures Edge(rs[j].relType, Keyed(NodeKey(rs[j].startLabel, rs[j].startValue)),
                 Keyed(NodeKey(rs[j].endLabel, rs[j].endValue))) in LoadAll(g, ns, rs).edges
  {
    var r := rs[j];
    var g1 := ApplyNodes(g, ns);
    KeyedAfterNodes(g, ns);
    var sk, ek := NodeKey(r.startLabel, r.startValue), NodeKey(r.endLabel, r.endValue);
    assert Keyed(sk) in Matches(g1.nodes, r.startLabel, r.startKey, r.startValue);
    assert Keyed(ek) in Matches(g1.nodes, r.endLabel, r.endKey, r.endValue);
    var e := Edge(r.relType, Keyed(sk), Keyed(ek));
    assert e in Targets(g1.nodes, r);
    RelsAsWrites(g1, rs);
    var ws := RelWrites(g1.nodes, rs);
    RelWritesAt(g1.nodes, rs, j);
    ApplyWritesAt(g1.edges, ws, e);
  }
}
