/**
  The topology: edge metadata and node metadata side by side
  (report/topology.go:8-51).  Every operation returns a new value.
 */
module Topologies {
  import opened Wrappers
  import opened Edges
  import opened Nodes

  datatype Topology = Topology(edges: EdgeMetadatas, nodes: NodeMetadatas)
  {
    /** A value copy: edges as they are, every node copied. */
    function Copy(): (r: Topology)
      ensures r.edges == edges && r.nodes == CopiedNodes(nodes)
    {
      Topology(edges, CopiedNodes(nodes))
    }

    /** Field-wise merge: edges deep-merged, nodes added only where missing. */
    function Merge(other: Topology): (r: Topology)
      ensures r.edges == MergedEdges(edges, other.edges)
      ensures r.nodes == MergedNodes(nodes, other.nodes)
    {
      Topology(MergedEdges(edges, other.edges), MergedNodes(nodes, other.nodes))
    }

    /**
      `nmd` under `nodeID` in a copy of this topology; an existing node there
      is folded into `nmd` as `nmd.Merge(existing)`.
     */
    function WithNode(nodeID: string, nmd: NodeMetadata): (r: Topology)
      ensures r.edges == edges && r.nodes.Keys == nodes.Keys + {nodeID}
    {
      var stored := if nodeID in nodes then nmd.Merge(nodes[nodeID]) else nmd;
      var result := Copy();
      result.(nodes := result.nodes[nodeID := stored])
    }
  }

  /** `MakeTopology`: no edges, no nodes. */
  function MakeTopology(): (r: Topology)
    ensures r.edges == map[] && r.nodes == map[]
  {
    Topology(map[], map[])
  }

  /**
    A new node is stored as given; an existing one becomes `nmd.Merge(existing)`;
    every other node is a copy of what it was and the edges do not change.
   */
  lemma WithNodeAt(t: Topology, nodeID: string, nmd: NodeMetadata, k: string)
    ensures k in t.WithNode(nodeID, nmd).nodes <==> k in t.nodes || k == nodeID
    ensures nodeID !in t.nodes ==> t.WithNode(nodeID, nmd).nodes[nodeID] == nmd
    ensures nodeID in t.nodes ==> t.WithNode(nodeID, nmd).nodes[nodeID] == nmd.Merge(t.nodes[nodeID])
    ensures k in t.nodes && k != nodeID ==> t.WithNode(nodeID, nmd).nodes[k] == t.nodes[k].Copy()
    ensures k in t.nodes && k != nodeID && t.nodes[k].metadata.Some? ==> t.WithNode(nodeID, nmd).nodes[k] == t.nodes[k]
    ensures t.WithNode(nodeID, nmd).edges == t.edges
  {
  }

  /**
    Because the existing node is the `other` side of the merge, its labels win
    over the supplied ones; counters are added and adjacency united.
   */
  lemma WithNodeExistingLabelsWin(t: Topology, nodeID: string, nmd: NodeMetadata, k: string)
    requires nodeID in t.nodes
    ensures var stored := t.WithNode(nodeID, nmd).nodes[nodeID];
            && (k in t.nodes[nodeID].Labels() ==> stored.Labels()[k] == t.nodes[nodeID].Labels()[k])
            && (k in nmd.Labels() && k !in t.nodes[nodeID].Labels() ==> stored.Labels()[k] == nmd.Labels()[k])
            && (k in stored.counters ==>
                  stored.counters[k] == Numeric.AddInt(Count(nmd.counters, k), Count(t.nodes[nodeID].counters, k)))
            && stored.adjacency == nmd.adjacency + t.nodes[nodeID].adjacency
  {
    WithNodeAt(t, nodeID, nmd, nodeID);
    MergeLabelsAt(nmd, t.nodes[nodeID], k);
    MergeCountersAt(nmd, t.nodes[nodeID], k);
  }

  /** Inserting the same node ID twice merges the second value with the first. */
  lemma WithNodeTwice(t: Topology, nodeID: string, a: NodeMetadata, b: NodeMetadata)
    requires nodeID !in t.nodes
    ensures t.WithNode(nodeID, a).WithNode(nodeID, b).nodes[nodeID] == b.Merge(a)
  {
    WithNodeAt(t, nodeID, a, nodeID);
    WithNodeAt(t.WithNode(nodeID, a), nodeID, b, nodeID);
  }

  /** Copying is idempotent and changes a topology only where a node has a nil label map. */
  lemma CopyIdempotent(t: Topology)
    ensures t.Copy().Copy() == t.Copy()
    ensures t.Copy() == t <==> forall k :: k in t.nodes ==> t.nodes[k].metadata.Some?
  {
    forall k | k in t.nodes ensures t.Copy().Copy().nodes[k] == t.Copy().nodes[k] {
      Nodes.CopyIdempotent(t.nodes[k]);
    }
    if forall k :: k in t.nodes ==> t.nodes[k].metadata.Some? {
      assert t.Copy().nodes == t.nodes;
    } else {
      var k :| k in t.nodes && t.nodes[k].metadata.None?;
      assert t.Copy().nodes[k] != t.nodes[k];
    }
  }

  lemma MergeAssociative(a: Topology, b: Topology, c: Topology)
    ensures a.Merge(b).Merge(c) == a.Merge(b.Merge(c))
  {
    MergedEdgesAssociative(a.edges, b.edges, c.edges);
    MergedNodesAssociative(a.nodes, b.nodes, c.nodes);
  }

  /** The empty topology is a two-sided identity of Merge, up to copying. */
  lemma MakeTopologyIsMergeIdentity(t: Topology)
    ensures t.Merge(MakeTopology()) == t.Copy()
    ensures MakeTopology().Merge(t) == t.Copy()
  {
    MergedEdgesEmpty(t.edges);
    MergedNodesIdempotent(t.nodes);
  }

  /** Merging a topology with itself copies its nodes but doubles its measured traffic. */
  lemma MergeSelf(t: Topology)
    ensures t.Merge(t).nodes == t.Copy().nodes
    ensures forall k :: k in t.edges ==> t.Merge(t).edges[k].maxConnCountTCP == t.edges[k].maxConnCountTCP
  {
    MergedNodesIdempotent(t.nodes);
    forall k | k in t.edges ensures t.Merge(t).edges[k].maxConnCountTCP == t.edges[k].maxConnCountTCP {
      MergedEdgesAt(t.edges, t.edges, k);
      Edges.MergeSelf(t.edges[k]);
    }
  }

  /** Merge is not idempotent: one edge with one egress packet merged with itself has two. */
  lemma MergeNotIdempotent()
    ensures var t := Topology(map["A|B" := Empty.(egressPacketCount := Some(1))], map[]);
            t.Merge(t) != t && t.Merge(t).edges["A|B"].egressPacketCount == Some(2)
  {
    var t := Topology(map["A|B" := Empty.(egressPacketCount := Some(1))], map[]);
    MergedEdgesAt(t.edges, t.edges, "A|B");
  }

  /** Every node of a copy or a merge has an initialised label map. */
  lemma CopyAndMergeInitialiseLabels(t: Topology, other: Topology, k: string)
    ensures k in t.Copy().nodes ==> t.Copy().nodes[k].metadata.Some?
    ensures k in t.Merge(other).nodes ==> t.Merge(other).nodes[k].metadata.Some?
  {
  }
}
