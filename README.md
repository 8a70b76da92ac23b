# Topology merge algebra

A Dafny model of `report/topology.go`: the merge algebra over partial
network-topology snapshots. Independent probes each report a fragment of a
topology. A collector combines these reports with the operations modelled here:

- optional 64-bit counters, combined by `sum` or `max`;
- `EdgeMetadata`, whose `Merge` is same edge, later time and whose `Flatten`
  is different edges, same window;
- `NodeMetadata`, with a label map, a counter map and an adjacency set;
- the keyed collections `EdgeMetadatas` and `NodeMetadatas`, which follow
  deliberately different merge policies;
- `Topology`, with `WithNode`, `Copy`, `Merge` and the consistency check
  `Validate`.

Every Go value is a Dafny value. A nil `*uint64` is `None` and a nil label map
is `None`. Each Go function that loops to build a fresh map, and `Validate`,
is a method with a `while` loop. Each such method is proved to compute a
specification function, and the algebraic facts are lemmas about those
functions.

Modules, leaves first: `Wrappers` (`Option`), `Numeric` (`numeric.dfy`),
`Edges` (`edges.dfy`), `Nodes` (`nodes.dfy`), `Topologies` (`topology.dfy`),
`Validation` (`validation.dfy`).

Arithmetic is written out. `sum` wraps modulo 2^64 (`Numeric.Sum`). Counter
addition is Go `int` addition on a 64-bit platform, so it wraps in two's
complement (`Numeric.AddInt`).

## Model

| member | source | states |
|---|---|---|
| `Numeric.Sum` | report/topology.go:291-293 | uint64 addition: the exact sum when it fits, otherwise the sum minus 2^64 |
| `Numeric.Max` | report/topology.go:295-300 | the result is one of the operands and is at least both of them |
| `Numeric.Merge` | report/topology.go:280-289 | absent `src` returns `dst`; present `src` with absent `dst` returns `src` (zero is the identity of both reducers); otherwise `op(dst, src)`; the result is present iff either side is |
| `Numeric.AddInt` | report/topology.go:230 | Go `int` addition: exact when in range, otherwise wrapped by 2^64 in the right direction |
| `Numeric.MergeCommutative` | report/topology.go:280-300 | optional merge with `sum` or `max` does not depend on operand order |
| `Numeric.MergeAssociative` | report/topology.go:280-300 | optional merge with `sum` or `max` is associative, including wrap-around |
| `Numeric.MaxMergeIdempotent` | report/topology.go:280-300 | merging a high-water mark with itself leaves it unchanged |
| `Numeric.SumMergeDoubles` | report/topology.go:280-293 | merging a present counter with itself under `sum` gives its wrapping double, which equals the counter only when it is 0, so `sum` is not idempotent |
| `Edges.EdgeMetadata.Copy` | report/topology.go:111-120 | the copy equals the original, field by field, absent fields included |
| `Edges.EdgeMetadata.Merge` | report/topology.go:130-141 | each of the five fields of the result is present iff it is present on either side |
| `Edges.EdgeMetadata.Flatten` | report/topology.go:143-156 | each of the five fields of the result is present iff it is present on either side; two high-water marks whose sum fits in 64 bits are added |
| `Edges.MergeFields` | report/topology.go:133-141 | the four packet and byte counters are the optional sum of both sides; `MaxConnCountTCP` is the optional max |
| `Edges.MergeKeepsHighWaterMark` | report/topology.go:139-140 | the merged `MaxConnCountTCP` is at least the value of either side that has one |
| `Edges.FlattenFields` | report/topology.go:146-156 | all five fields, `MaxConnCountTCP` included, are the optional wrapping sum of both sides |
| `Edges.FlattenVersusMerge` | report/topology.go:143-156 | Flatten and Merge agree on the four traffic counters; on the high-water mark they agree iff at most one side has it or one side's value is 0 |
| `Edges.EmptyIsMergeIdentity` | report/topology.go:130-156 | the zero `EdgeMetadata{}` is a left and right identity of both Merge and Flatten |
| `Edges.MergeCommutative` | report/topology.go:133-141 | edge Merge is commutative |
| `Edges.MergeAssociative` | report/topology.go:133-141 | edge Merge is associative |
| `Edges.FlattenCommutative` | report/topology.go:146-156 | edge Flatten is commutative |
| `Edges.FlattenAssociative` | report/topology.go:146-156 | edge Flatten is associative |
| `Edges.MergeSelf` | report/topology.go:133-141 | merging an edge with itself keeps `MaxConnCountTCP` and turns each present traffic counter into its wrapping double |
| `Edges.MergeExamples` | report/topology.go:133-156 | 10 merged with 5 packets gives 15; 1 merged with itself gives 2; 10 merged with an absent count stays 10; high-water marks 4 and 6 give 6 under Merge and 10 under Flatten |
| `Edges.MergedEdges` | report/topology.go:66-74 | the merged collection's key set is the union of both key sets |
| `Edges.MergedEdgesAt` | report/topology.go:66-74 | a key in the receiver only keeps its value; a key in `other` only arrives unchanged (`EdgeMetadata{}.Merge(v) == v`); a key in both maps to `e[k].Merge(other[k])` |
| `Edges.MergedEdgesCommutative` | report/topology.go:66-74 | merging edge collections does not depend on the order |
| `Edges.MergedEdgesAssociative` | report/topology.go:66-74 | merging edge collections is associative |
| `Edges.MergedEdgesEmpty` | report/topology.go:66-74 | the empty collection is a left and right identity of the edge-collection merge |
| `Edges.CopyEdgeMetadatas` | report/topology.go:57-64 | the copy loop builds a map equal to the receiver |
| `Edges.MergeEdgeMetadatas` | report/topology.go:66-74 | the copy-then-merge loop computes `MergedEdges` |
| `Nodes.NodeMetadata.Copy` | report/topology.go:208-219 | the copy always has a label map with the same labels, the same counters and the same adjacency; copying a node whose label map is present changes nothing |
| `Nodes.NodeMetadata.WithMetadata` | report/topology.go:180-185 | replaces the label map, even with nil, and keeps counters and adjacency |
| `Nodes.NodeMetadata.WithCounters` | report/topology.go:187-192 | replaces the counters and keeps adjacency; the labels are copied, so a nil label map becomes empty |
| `Nodes.NodeMetadata.WithAdjacency` | report/topology.go:194-199 | replaces the adjacency list and keeps counters; labels are copied |
| `Nodes.NodeMetadata.WithAdjacent` | report/topology.go:201-206 | the new adjacency is the old one plus exactly the given ID; labels are copied and counters kept |
| `Nodes.NodeMetadata.Merge` | report/topology.go:221-234 | the result has a label map; the label keys and the counter keys are the unions of both sides' keys |
| `Nodes.MakeNodeMetadata` | report/topology.go:166-169 | an initialised empty label map, no counters, no adjacency |
| `Nodes.MakeNodeMetadataWith` | report/topology.go:171-178 | the given label map (possibly nil), no counters, no adjacency |
| `Nodes.CopyIdempotent` | report/topology.go:208-219 | copying twice equals copying once; a copy keeps the labels; a copy equals the node iff its label map is present |
| `Nodes.WithAdjacentIdempotent` | report/topology.go:201-206 | adding the same adjacent ID twice equals adding it once; adding one already present only copies |
| `Nodes.MergeLabelsAt` | report/topology.go:224-228 | label keys are united; `other`'s value wins on a shared key; receiver-only keys keep their value |
| `Nodes.MergeCountersAt` | report/topology.go:229-231 | for a key of `other` the count is the receiver's count (0 if missing) plus `other`'s; receiver-only keys are unchanged |
| `Nodes.MergedCountersAt` | report/topology.go:229-231 | every merged counter is the wrapping sum of both sides' counts, with a missing count read as 0 |
| `Nodes.MergeAdjacency` | report/topology.go:232 | the merged adjacency is the union of both adjacency sets |
| `Nodes.MergeCountersCommutative` | report/topology.go:229-232 | counters and adjacency merge the same in either order, so only labels depend on the order |
| `Nodes.MergedCountersAssociative` | report/topology.go:229-231 | the counter merge is associative, including wrap-around |
| `Nodes.MergeAssociative` | report/topology.go:224-234 | node Merge is associative |
| `Nodes.MakeNodeMetadataIsMergeIdentity` | report/topology.go:166-234 | merging with an empty node on either side gives a copy of the node |
| `Nodes.CopyNodeMetadata` | report/topology.go:208-219 | the two copy loops compute `NodeMetadata.Copy` |
| `Nodes.OverrideLabels` | report/topology.go:226-228 | the label loop yields the receiver's labels overridden by `other`'s |
| `Nodes.AddCounters` | report/topology.go:229-231 | the counter loop computes `MergedCounters` |
| `Nodes.MergeNodeMetadata` | report/topology.go:224-234 | copy, label loop, counter loop and adjacency union together compute `NodeMetadata.Merge` |
| `Nodes.CopiedNodes` | report/topology.go:80-87 | copying the collection keeps its key set |
| `Nodes.CopiedNodesAt` | report/topology.go:80-87 | every copied node has a label map with the same labels; nodes with a label map are unchanged |
| `Nodes.MergedNodes` | report/topology.go:89-99 | the merged collection's key set is the union of both key sets |
| `Nodes.MergedNodesAt` | report/topology.go:89-99 | no deep merge: a key in the receiver keeps the receiver's node (copied), whatever `other` holds; keys only in `other` are copied in |
| `Nodes.MergedNodesAssociative` | report/topology.go:91-99 | the node-collection merge is associative |
| `Nodes.MergedNodesIdempotent` | report/topology.go:91-99 | merging a node collection with itself, or with the empty collection on either side, yields its copy |
| `Nodes.MergeAsymmetryExample` | report/topology.go:91-99 | receiver label x=1 against x=2: the collection merge keeps 1, the direct node merge gives 2 |
| `Nodes.CopyNodeMetadatas` | report/topology.go:80-87 | the copy loop computes `CopiedNodes` |
| `Nodes.MergeNodeMetadatas` | report/topology.go:89-99 | the copy-then-add-missing loop computes `MergedNodes` |
| `Topologies.Topology.Copy` | report/topology.go:36-42 | the copy has the same edges, and its nodes are the collection copy `CopiedNodes` of the original's |
| `Topologies.Topology.Merge` | report/topology.go:44-51 | the edges are the edge-collection merge `MergedEdges` of both sides and the nodes are the node-collection merge `MergedNodes` |
| `Topologies.Topology.WithNode` | report/topology.go:25-34 | edges are unchanged; the node IDs are the old ones plus `nodeID` |
| `Topologies.MakeTopology` | report/topology.go:17-23 | no edges and no nodes |
| `Topologies.WithNodeAt` | report/topology.go:25-34 | an absent ID maps to `nmd`; a present one maps to `nmd.Merge(existing)`; other nodes are copies of what they were; edges are unchanged |
| `Topologies.WithNodeExistingLabelsWin` | report/topology.go:27-33 | on a re-inserted node the existing labels win, labels only in `nmd` are kept, counters are summed and adjacency is united |
| `Topologies.WithNodeTwice` | report/topology.go:25-34 | inserting `a` then `b` under a new ID stores `b.Merge(a)` |
| `Topologies.CopyIdempotent` | report/topology.go:36-42 | copying twice equals copying once; a copy equals the topology iff no node has a nil label map |
| `Topologies.MergeAssociative` | report/topology.go:44-51 | topology Merge is associative |
| `Topologies.MakeTopologyIsMergeIdentity` | report/topology.go:17-51 | merging with an empty topology on either side gives a copy |
| `Topologies.MergeSelf` | report/topology.go:44-51 | merging a topology with itself copies its nodes and keeps every edge's `MaxConnCountTCP` |
| `Topologies.MergeNotIdempotent` | report/topology.go:46-74 | a topology with one edge holding one egress packet, merged with itself, holds two, so it differs from the original |
| `Topologies.CopyAndMergeInitialiseLabels` | report/topology.go:36-51 | every node of a copy or a merge has a label map |
| `Validation.ConsistentIffNothingReported` | report/topology.go:236-278 | the topology invariant holds iff no violation is reported |
| `Validation.CheckAdjacency` | report/topology.go:265-270 | the adjacency loop reports exactly the missing adjacent nodes of one node, each once |
| `Validation.Validate` | report/topology.go:236-278 | nil iff the topology is consistent; otherwise a non-empty list without duplicates that holds exactly the reported violations, one per occurrence |
| `Validation.MergeReportsNoNilMetadata` | report/topology.go:257-260 | a merged or copied topology never has the nil-label-map violation |
| `Validation.ValidateExamples` | report/topology.go:241-271 | edge A\|B with A adjacent to a missing B reports the missing adjacent node and neither edge violation; adding B makes the topology consistent |
| `Validation.AdjacencyWithoutEdgePasses` | report/topology.go:237-278 | A adjacent to B with no A\|B edge passes when both have label maps and every node ID is accepted, because edges are checked against adjacency but not the reverse |

## Behaviour worth noting

- `Topology.Merge` is not idempotent. Traffic counters are summed, so merging a
  topology with itself doubles them (`Topologies.MergeNotIdempotent`). The
  high-water mark is unchanged, and the node collection is only copied, so a
  nil label map becomes an empty one (`Topologies.MergeSelf`).
- On a node ID that is already present, `WithNode` stores
  `nmd.Merge(existing)`. `Merge` lets its argument win on a shared label, so
  the existing labels win over the freshly supplied ones
  (`Topologies.WithNodeExistingLabelsWin`).
- `Validate` checks every edge against adjacency but never checks adjacency
  against edges. A node A adjacent to a present node B, with no `A|B` edge,
  passes as long as the node-ID parser accepts A and B and both nodes have a
  label map: B built with `MakeNodeMetadata()`, not the zero `NodeMetadata{}`,
  whose nil label map is itself reported
  (`Validation.AdjacencyWithoutEdgePasses`, stated with a parser that accepts
  every ID).

## Left out

- Pointer and map aliasing: `cpu64ptr` and the write through `*dst` in `merge` are not modelled. With value semantics, a copy is a new value and nothing can alias.
- `Validate`'s error text: the `fmt.Sprintf`/`strings.Join` messages and the count prefix are not modelled. Each message is one `Violation` constructor carrying the IDs it names.
- The order of reported violations is not modelled. It follows Go map iteration order.
- `ParseEdgeID` and `ParseNodeID` are not part of this model. They are parameters of `Validate`, and only whether `ParseNodeID` succeeds is used.
- `IDList` is not part of this model. An adjacency list is a set of node IDs, so its sorted order and the duplicates a hand-built slice could hold are left out.
- JSON struct tags are serialisation concerns and are not modelled.
- A nil `Counters` map and an empty one are the same value here. Nothing in this code tells them apart.
- Go's `int` is modelled as 64 bits wide. On a 32-bit platform counters would wrap at 2^32.
- Concurrent access is not modelled. The code has no synchronisation of its own.
