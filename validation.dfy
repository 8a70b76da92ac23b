/**
  `Topology.Validate` (report/topology.go:236-278): a read-only check that
  collects every inconsistency between edges, adjacency and node metadata.
  The identifier parsers belong to another part of the system and are
  parameters here.
 */
module Validation {
  import opened Wrappers
  import opened Nodes
  import opened Topologies

  /** `ParseEdgeID`: the source and destination node IDs, or None when the key does not parse. */
  type EdgeIdParser = string -> Option<(string, string)>

  /** Whether `ParseNodeID` accepts a node ID. */
  type NodeIdCheck = string -> bool

  /** One reported inconsistency; each carries the IDs its message names. */
  datatype Violation =
    | InvalidEdgeID(edgeID: string)
    | MissingSourceNode(srcNodeID: string, edgeID: string)
    | MissingAdjacency(srcNodeID: string, edgeID: string)
    | NilMetadata(nodeID: string)
    | InvalidNodeID(nodeID: string)
    | MissingAdjacentNode(nodeID: string, dstNodeID: string)
  {
    /** Found while checking edge keys (the rest are found while checking nodes). */
    predicate OfEdge()
    {
      InvalidEdgeID? || MissingSourceNode? || MissingAdjacency?
    }
  }

  /** Whether `Validate` reports `v` for `t`. */
  predicate Reports(t: Topology, parseEdgeID: EdgeIdParser, nodeIDOk: NodeIdCheck, v: Violation)
  {
    match v
    case InvalidEdgeID(e) =>
      e in t.edges && parseEdgeID(e).None?
    case MissingSourceNode(src, e) =>
      e in t.edges && parseEdgeID(e).Some? && parseEdgeID(e).value.0 == src && src !in t.nodes
    case MissingAdjacency(src, e) =>
      e in t.edges && parseEdgeID(e).Some? && parseEdgeID(e).value.0 == src && src in t.nodes &&
      parseEdgeID(e).value.1 !in t.nodes[src].adjacency
    case NilMetadata(id) =>
      id in t.nodes && t.nodes[id].metadata.None?
    case InvalidNodeID(id) =>
      id in t.nodes && !nodeIDOk(id)
    case MissingAdjacentNode(id, dst) =>
      id in t.nodes && dst in t.nodes[id].adjacency && dst !in t.nodes
  }

  /**
    The topology invariant: every edge key parses, its source node exists and
    lists the destination as adjacent; every node has a label map, a parseable
    ID, and only existing nodes in its adjacency list.
   */
  predicate Consistent(t: Topology, parseEdgeID: EdgeIdParser, nodeIDOk: NodeIdCheck)
  {
    && (forall e :: e in t.edges ==>
          && parseEdgeID(e).Some?
          && parseEdgeID(e).value.0 in t.nodes
          && parseEdgeID(e).value.1 in t.nodes[parseEdgeID(e).value.0].adjacency)
    && (forall id :: id in t.nodes ==>
          && t.nodes[id].metadata.Some?
          && nodeIDOk(id)
          && t.nodes[id].adjacency <= t.nodes.Keys)
  }

  /** No element occurs twice. */
  predicate Distinct(s: seq<Violation>)
  {
    forall i, j :: 0 <= i < j < |s| ==> s[i] != s[j]
  }

  lemma DistinctAppend(a: seq<Violation>, b: seq<Violation>)
    requires Distinct(a) && Distinct(b)
    requires forall v :: v in a ==> v !in b
    ensures Distinct(a + b)
  {
    forall i, j | 0 <= i < j < |a + b|
      ensures (a + b)[i] != (a + b)[j]
    {
      if i < |a| && j >= |a| {
        assert (a + b)[i] in a && (a + b)[j] in b;
      }
    }
  }

  /** The invariant holds exactly when there is nothing to report. */
  lemma ConsistentIffNothingReported(t: Topology, parseEdgeID: EdgeIdParser, nodeIDOk: NodeIdCheck)
    ensures Consistent(t, parseEdgeID, nodeIDOk) <==> forall v :: !Reports(t, parseEdgeID, nodeIDOk, v)
  {
    if !Consistent(t, parseEdgeID, nodeIDOk) {
      if e :| e in t.edges && !(
            && parseEdgeID(e).Some?
            && parseEdgeID(e).value.0 in t.nodes
            && parseEdgeID(e).value.1 in t.nodes[parseEdgeID(e).value.0].adjacency) {
        match parseEdgeID(e)
        case None =>
          assert Reports(t, parseEdgeID, nodeIDOk, InvalidEdgeID(e));
        case Some((src, dst)) =>
          if src !in t.nodes {
            assert Reports(t, parseEdgeID, nodeIDOk, MissingSourceNode(src, e));
          } else {
            assert Reports(t, parseEdgeID, nodeIDOk, MissingAdjacency(src, e));
          }
      } else {
        var id :| id in t.nodes && !(
          && t.nodes[id].metadata.Some?
          && nodeIDOk(id)
          && t.nodes[id].adjacency <= t.nodes.Keys);
        if t.nodes[id].metadata.None? {
          assert Reports(t, parseEdgeID, nodeIDOk, NilMetadata(id));
        } else if !nodeIDOk(id) {
          assert Reports(t, parseEdgeID, nodeIDOk, InvalidNodeID(id));
        } else {
          var dst :| dst in t.nodes[id].adjacency && dst !in t.nodes;
          assert Reports(t, parseEdgeID, nodeIDOk, MissingAdjacentNode(id, dst));
        }
      }
    }
  }

  /**
    The inner loop of `Validate`: one violation for each adjacent node ID of
    `nodeID` that has no node metadata.
   */
  method CheckAdjacency(t: Topology, parseEdgeID: EdgeIdParser, nodeIDOk: NodeIdCheck, nodeID: string)
    returns (missing: seq<Violation>)
    requires nodeID in t.nodes
    ensures forall v :: v in missing <==>
              v.MissingAdjacentNode? && v.nodeID == nodeID && Reports(t, parseEdgeID, nodeIDOk, v)
    ensures Distinct(missing)
  {
    missing := [];
    var rest := t.nodes[nodeID].adjacency;
    while rest != {}
      invariant rest <= t.nodes[nodeID].adjacency
      invariant forall v :: v in missing <==>
                  v.MissingAdjacentNode? && v.nodeID == nodeID && v.dstNodeID !in rest &&
                  Reports(t, parseEdgeID, nodeIDOk, v)
      invariant Distinct(missing)
      decreases rest
    {
      var dst :| dst in rest;
      if dst !in t.nodes {
        missing := missing + [MissingAdjacentNode(nodeID, dst)];
      }
      rest := rest - {dst};
    }
  }

  /**
    `Validate`: checks every edge key, then every node and its adjacency list,
    and records one violation per occurrence without stopping at the first.
    Returns None exactly when the topology is consistent; otherwise every
    reported violation, each once.
   */
  method Validate(t: Topology, parseEdgeID: EdgeIdParser, nodeIDOk: NodeIdCheck) returns (err: Option<seq<Violation>>)
    ensures err.None? <==> Consistent(t, parseEdgeID, nodeIDOk)
    ensures err.Some? ==> |err.value| > 0 && Distinct(err.value)
    ensures err.Some? ==> forall v :: v in err.value <==> Reports(t, parseEdgeID, nodeIDOk, v)
  {
    var errs: seq<Violation> := [];
    var todo := t.edges.Keys;
    while todo != {}
      invariant todo <= t.edges.Keys
      invariant forall v :: v in errs <==> v.OfEdge() && v.edgeID !in todo && Reports(t, parseEdgeID, nodeIDOk, v)
      invariant Distinct(errs)
      decreases todo
    {
      var edgeID :| edgeID in todo;
      match parseEdgeID(edgeID) {
        case None =>
          errs := errs + [InvalidEdgeID(edgeID)];
        case Some((src, dst)) =>
          if src !in t.nodes {
            errs := errs + [MissingSourceNode(src, edgeID)];
          } else if dst !in t.nodes[src].adjacency {
            errs := errs + [MissingAdjacency(src, edgeID)];
          }
      }
      todo := todo - {edgeID};
    }

    todo := t.nodes.Keys;
    while todo != {}
      invariant todo <= t.nodes.Keys
      invariant forall v :: v in errs <==>
                  Reports(t, parseEdgeID, nodeIDOk, v) && (v.OfEdge() || v.nodeID !in todo)
      invariant Distinct(errs)
      decreases todo
    {
      var nodeID :| nodeID in todo;
      var nmd := t.nodes[nodeID];
      if nmd.metadata.None? {
        errs := errs + [NilMetadata(nodeID)];
      }
      if !nodeIDOk(nodeID) {
        errs := errs + [InvalidNodeID(nodeID)];
      }
      var missing := CheckAdjacency(t, parseEdgeID, nodeIDOk, nodeID);
      DistinctAppend(errs, missing);
      errs := errs + missing;
      todo := todo - {nodeID};
    }

    assert forall v :: v in errs <==> Reports(t, parseEdgeID, nodeIDOk, v);
    ConsistentIffNothingReported(t, parseEdgeID, nodeIDOk);
    if |errs| > 0 {
      assert Reports(t, parseEdgeID, nodeIDOk, errs[0]);
      err := Some(errs);
    } else {
      err := None;
    }
  }

  /** A merge or a copy can never produce a nil-label-map violation. */
  lemma MergeReportsNoNilMetadata(t: Topology, other: Topology, parseEdgeID: EdgeIdParser, nodeIDOk: NodeIdCheck, id: string)
    ensures !Reports(t.Merge(other), parseEdgeID, nodeIDOk, NilMetadata(id))
    ensures !Reports(t.Copy(), parseEdgeID, nodeIDOk, NilMetadata(id))
  {
    CopyAndMergeInitialiseLabels(t, other, id);
  }

  /**
    Edge "A|B" with node A adjacent to a missing node B: the edge itself is in
    order, but A's adjacency names a node that is absent.  With B added the
    topology is consistent.
   */
  lemma ValidateExamples()
    ensures var parse: EdgeIdParser := e => if e == "A|B" then Some(("A", "B")) else None;
            var anyID: NodeIdCheck := id => true;
            var a := MakeNodeMetadata().WithAdjacent("B");
            var broken := Topology(map["A|B" := Edges.Empty], map["A" := a]);
            var fixed := Topology(map["A|B" := Edges.Empty], map["A" := a, "B" := MakeNodeMetadata()]);
            && Reports(broken, parse, anyID, MissingAdjacentNode("A", "B"))
            && !Reports(broken, parse, anyID, MissingSourceNode("A", "A|B"))
            && !Reports(broken, parse, anyID, MissingAdjacency("A", "A|B"))
            && !Consistent(broken, parse, anyID)
            && Consistent(fixed, parse, anyID)
  {
    var parse: EdgeIdParser := e => if e == "A|B" then Some(("A", "B")) else None;
    var anyID: NodeIdCheck := id => true;
    var a := MakeNodeMetadata().WithAdjacent("B");
    var broken := Topology(map["A|B" := Edges.Empty], map["A" := a]);
    ConsistentIffNothingReported(broken, parse, anyID);
  }

  /**
    Nodes added with `WithNode` and no edges at all: A adjacent to B, B
    present.  Only edge keys are checked against adjacency, never the other
    way round, so this topology passes when the node-ID check accepts "A"
    and "B" (here it accepts every ID; the edge parser is never consulted,
    as there are no edges) and both nodes have a label map (a zero-value
    node with a nil label map would itself be reported).
   */
  lemma AdjacencyWithoutEdgePasses()
    ensures var t := MakeTopology()
              .WithNode("A", MakeNodeMetadataWith(Some(map["role" := "db"])))
              .WithNode("A", MakeNodeMetadataWith(Some(map["role" := "db"])).WithAdjacency({"B"}))
              .WithNode("B", MakeNodeMetadata());
            Consistent(t, e => None, id => true)
  {
    var t0 := MakeTopology();
    var t1 := t0.WithNode("A", MakeNodeMetadataWith(Some(map["role" := "db"])));
    var t2 := t1.WithNode("A", MakeNodeMetadataWith(Some(map["role" := "db"])).WithAdjacency({"B"}));
    var t3 := t2.WithNode("B", MakeNodeMetadata());
    assert t2.nodes.Keys == {"A"};
    WithNodeAt(t2, "B", MakeNodeMetadata(), "A");
    WithNodeAt(t1, "A", MakeNodeMetadataWith(Some(map["role" := "db"])).WithAdjacency({"B"}), "A");
    assert t3.nodes.Keys == {"A", "B"};
    assert t3.nodes["A"].adjacency == {"B"};
  }
}
