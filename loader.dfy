/** The batch loops of `load_data_to_neo4j` (TP2/app/etl.py) running against
    a mutable store object. */
module Loader {
  import opened Values
  import opened Seqs
  import opened Records
  import opened Batching
  import opened Store

  /** The graph store as the loader sees it: keyed nodes, CREATEd nodes and
      edges, each a field the write methods update in place. */
  class GraphStore {
    var keyed: map<NodeKey, Props>
    var anon: seq<AnonNode>
    var edges: map<Edge, Props>

    function View(): Graph
      reads this
    {
      Graph(Nodes(keyed, anon), edges)
    }

    /** An empty store. */
    constructor ()
      ensures View() == Graph(Nodes(map[], []), map[])
    {
      keyed, anon, edges := map[], [], map[];
    }

    /** One item of `_create_nodes`. */
    method MergeNode(item: NodeRecord)
      modifies this
      ensures View() == NodeStep(old(View()), item)
    {
      var idProp := Lookup(item.props, "id");
      if Truthy(idProp) {
        var key := NodeKey(item.nodeLabel, idProp);
        var propsDict := item.props - {"id"};
        if propsDict != map[] {
          // MERGE (n:Label {id: $id}) SET n.k = $k, ...
          keyed := keyed[key := Overlay(Get(keyed, key), propsDict)];
        } else if key !in keyed {
          // MERGE (n:Label {id: $id}) with nothing to SET
          keyed := keyed[key := map[]];
        }
        assert propsDict == map[] ==> Overlay(Get(old(keyed), key), propsDict) == Get(old(keyed), key) by {
          OverlayNothing(Get(old(keyed), key));
        }
        assert keyed == WriteCells(old(keyed), {key}, propsDict);
      } else {
        // CREATE (:Label {k: $k, ...}); null properties are not stored
        anon := anon + [AnonNode(item.nodeLabel, Overlay(map[], item.props))];
      }
    }

    /** One item of `_create_relationships`. */
    method MergeRelationship(rel: RelRecord)
      modifies this`edges
      ensures View() == RelStep(old(View()), rel)
    {
      // MATCH (a:StartLabel {key: $start_val}) MATCH (b:EndLabel {key: $end_val})
      var pairs := Targets(Nodes(keyed, anon), rel);
      if rel.props != map[] {
        // MERGE (a)-[r:TYPE]->(b) SET r.k = $k, ...
        edges := WriteCells(edges, pairs, rel.props);
      } else {
        // MERGE (a)-[:TYPE]->(b)
        edges := map e | e in edges.Keys + pairs :: if e in edges then edges[e] else map[];
        forall e | e in pairs ensures edges[e] == Overlay(Get(old(edges), e), rel.props) {
          OverlayNothing(Get(old(edges), e));
        }
        assert edges == WriteCells(old(edges), pairs, rel.props);
      }
    }

    /** `_create_nodes(tx, batch)`: the batch's items in order. */
    method CreateNodes(batch: seq<NodeRecord>)
      modifies this
      ensures View() == ApplyNodes(old(View()), batch)
    {
      for i := 0 to |batch|
        invariant View() == ApplyNodes(old(View()), batch[..i])
      {
        assert batch[..i + 1][..i] == batch[..i];
        MergeNode(batch[i]);
      }
      assert batch[..|batch|] == batch;
    }

    /** `_create_relationships(tx, batch)`: the batch's items in order. */
    method CreateRelationships(batch: seq<RelRecord>)
      modifies this`edges
      ensures View() == ApplyRels(old(View()), batch)
    {
      for i := 0 to |batch|
        invariant View() == ApplyRels(old(View()), batch[..i])
      {
        assert batch[..i + 1][..i] == batch[..i];
        MergeRelationship(batch[i]);
      }
      assert batch[..|batch|] == batch;
    }

    /** `load_data_to_neo4j`: every node batch, then every relationship batch,
        BATCH_SIZE records per transaction; returns the two batch counts. */
    method Load(nodes: seq<NodeRecord>, relationships: seq<RelRecord>)
      returns (nodeBatches: nat, relBatches: nat)
      modifies this
      ensures View() == LoadAll(old(View()), nodes, relationships)
      ensures nodeBatches == (|nodes| + BatchSize - 1) / BatchSize
      ensures relBatches == (|relationships| + BatchSize - 1) / BatchSize
    {
      var nodeChunks := Chunk(nodes, BatchSize).batches;
      RunNodeBatches(nodeChunks);
      nodeBatches := |nodeChunks|;
      var relChunks := Chunk(relationships, BatchSize).batches;
      RunRelBatches(relChunks);
      relBatches := |relChunks|;
    }

    /** `for batch in node_batches: session.execute_write(_create_nodes, batch)`. */
    method RunNodeBatches(chunks: seq<seq<NodeRecord>>)
      modifies this
      ensures View() == ApplyNodes(old(View()), Flatten(chunks))
    {
      for i := 0 to |chunks|
        invariant View() == ApplyNodes(old(View()), Flatten(chunks[..i]))
      {
        assert chunks[..i + 1][..i] == chunks[..i];
        ApplyNodesConcat(old(View()), Flatten(chunks[..i]), chunks[i]);
        CreateNodes(chunks[i]);
      }
      assert chunks[..|chunks|] == chunks;
    }

    /** `for batch in rel_batches: session.execute_write(_create_relationships, batch)`. */
    method RunRelBatches(chunks: seq<seq<RelRecord>>)
      modifies this`edges
      ensures View() == ApplyRels(old(View()), Flatten(chunks))
    {
      for i := 0 to |chunks|
        invariant View() == ApplyRels(old(View()), Flatten(chunks[..i]))
      {
        assert chunks[..i + 1][..i] == chunks[..i];
        ApplyRelsConcat(old(View()), Flatten(chunks[..i]), chunks[i]);
        CreateRelationships(chunks[i]);
      }
      assert chunks[..|chunks|] == chunks;
    }
  }
}
