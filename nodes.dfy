/**
  Node metadata (report/topology.go:158-234) and the keyed collection of it,
  `NodeMetadatas` (report/topology.go:76-99).  The adjacency list is a set of
  node IDs; a nil label map is `None`.
 */
module Nodes {
  import opened Wrappers
  import opened Numeric

  /** Node IDs this node has an observed edge towards. */
  type IdSet = set<string>

  datatype NodeMetadata = NodeMetadata(
    metadata: Option<map<string, string>>,
    counters: map<string, Int64>,
    adjacency: IdSet)
  {
    /** The labels as Go reads them: a nil map reads as empty. */
    function Labels(): map<string, string>
    {
      metadata.GetOr(map[])
    }

    /** A value copy; the copy's label map is always initialised. */
    function Copy(): (cp: NodeMetadata)
      ensures cp.metadata.Some? && cp.Labels() == Labels()
      ensures cp.counters == counters && cp.adjacency == adjacency
      ensures metadata.Some? ==> cp == this
    {
      NodeMetadata(Some(Labels()), counters, adjacency)
    }

    /** Copy, then replace the label map. */
    function WithMetadata(m: Option<map<string, string>>): (r: NodeMetadata)
      ensures r.metadata == m && r.counters == counters && r.adjacency == adjacency
    {
      Copy().(metadata := m)
    }

    /** Copy, then replace the counter map. */
    function WithCounters(c: map<string, Int64>): (r: NodeMetadata)
      ensures r.metadata == Some(Labels()) && r.counters == c && r.adjacency == adjacency
    {
      Copy().(counters := c)
    }

    /** Copy, then replace the adjacency list. */
    function WithAdjacency(a: IdSet): (r: NodeMetadata)
      ensures r.metadata == Some(Labels()) && r.counters == counters && r.adjacency == a
    {
      Copy().(adjacency := a)
    }

    /** Copy, then add one node ID to the adjacency list. */
    function WithAdjacent(a: string): (r: NodeMetadata)
      ensures a in r.adjacency && adjacency <= r.adjacency && r.adjacency - {a} <= adjacency
      ensures r.metadata == Some(Labels()) && r.counters == counters
    {
      var cp := Copy();
      cp.(adjacency := cp.adjacency + {a})
    }

    /**
      Folds `other` into a copy of this node: `other`'s labels win, counters
      are added per key, adjacency lists are united.
     */
    function Merge(other: NodeMetadata): (r: NodeMetadata)
      ensures r.metadata.Some?
      ensures r.Labels().Keys == Labels().Keys + other.Labels().Keys
      ensures r.counters.Keys == counters.Keys + other.counters.Keys
    {
      NodeMetadata(Some(Labels() + other.Labels()),
                   MergedCounters(counters, other.counters),
                   adjacency + other.adjacency)
    }
  }

  /** A Go map read: a missing counter reads as 0. */
  function Count(c: map<string, Int64>, k: string): Int64
  {
    if k in c then c[k] else 0
  }

  /** Counters after `NodeMetadata.Merge`: each key of `theirs` is added onto the receiver's count. */
  function MergedCounters(mine: map<string, Int64>, theirs: map<string, Int64>): map<string, Int64>
  {
    map k | k in mine.Keys + theirs.Keys ::
      if k in theirs then AddInt(Count(mine, k), theirs[k]) else mine[k]
  }

  /** `MakeNodeMetadata`: an initialised, empty label map and nothing else. */
  function MakeNodeMetadata(): (r: NodeMetadata)
    ensures r.metadata == Some(map[]) && r.counters == map[] && r.adjacency == {}
  {
    MakeNodeMetadataWith(Some(map[]))
  }

  /** `MakeNodeMetadataWith`: the given label map (possibly nil), no counters, no adjacency. */
  function MakeNodeMetadataWith(m: Option<map<string, string>>): (r: NodeMetadata)
    ensures r.metadata == m && r.counters == map[] && r.adjacency == {}
  {
    NodeMetadata(m, map[], {})
  }

  /** Copying is idempotent and only ever changes a nil label map into an empty one. */
  lemma CopyIdempotent(n: NodeMetadata)
    ensures n.Copy().Copy() == n.Copy()
    ensures n.Copy().Labels() == n.Labels()
    ensures n.Copy() == n <==> n.metadata.Some?
  {
  }

  /** Adding an adjacent node that is already there adds nothing. */
  lemma WithAdjacentIdempotent(n: NodeMetadata, a: string)
    ensures n.WithAdjacent(a).WithAdjacent(a) == n.WithAdjacent(a)
    ensures a in n.adjacency ==> n.WithAdjacent(a) == n.Copy()
  {
  }

  /** Labels: `other` wins on a shared key; keys of the receiver alone keep their value. */
  lemma MergeLabelsAt(n: NodeMetadata, other: NodeMetadata, k: string)
    ensures k in n.Merge(other).Labels() <==> k in n.Labels() || k in other.Labels()
    ensures k in other.Labels() ==> n.Merge(other).Labels()[k] == other.Labels()[k]
    ensures k in n.Labels() && k !in other.Labels() ==> n.Merge(other).Labels()[k] == n.Labels()[k]
  {
  }

  /**
    Counters: a key of `other` gets the receiver's count (0 when missing) plus
    `other`'s; a key of the receiver alone keeps its count.
   */
  lemma MergeCountersAt(n: NodeMetadata, other: NodeMetadata, k: string)
    ensures k in n.Merge(other).counters <==> k in n.counters || k in other.counters
    ensures k in other.counters ==> n.Merge(other).counters[k] == AddInt(Count(n.counters, k), other.counters[k])
    ensures k in n.counters && k !in other.counters ==> n.Merge(other).counters[k] == n.counters[k]
    ensures k in n.Merge(other).counters ==>
              n.Merge(other).counters[k] == AddInt(Count(n.counters, k), Count(other.counters, k))
  {
  }

  /** Adjacency: exactly the nodes adjacent on either side. */
  lemma MergeAdjacency(n: NodeMetadata, other: NodeMetadata, id: string)
    ensures id in n.Merge(other).adjacency <==> id in n.adjacency || id in other.adjacency
  {
  }

  /** Counters and adjacency merge symmetrically; only the labels depend on the order. */
  lemma MergeCountersCommutative(a: NodeMetadata, b: NodeMetadata)
    ensures a.Merge(b).counters == b.Merge(a).counters
    ensures a.Merge(b).adjacency == b.Merge(a).adjacency
  {
    forall k | k in a.counters.Keys + b.counters.Keys
      ensures a.Merge(b).counters[k] == b.Merge(a).counters[k]
    {
      MergeCountersAt(a, b, k);
      MergeCountersAt(b, a, k);
    }
  }

  /** Per key, merged counters are the wrapping sum of both sides' counts. */
  lemma MergedCountersAt(mine: map<string, Int64>, theirs: map<string, Int64>, k: string)
    ensures k in MergedCounters(mine, theirs) <==> k in mine || k in theirs
    ensures k in MergedCounters(mine, theirs) ==>
              MergedCounters(mine, theirs)[k] == AddInt(Count(mine, k), Count(theirs, k))
  {
  }

  /** Adding one more counter of `theirs` updates exactly that key of the result. */
  lemma MergedCountersStep(mine: map<string, Int64>, done: map<string, Int64>, k: string, v: Int64)
    requires k !in done
    ensures MergedCounters(mine, done[k := v]) == MergedCounters(mine, done)[k := AddInt(Count(mine, k), v)]
  {
    var before, after := MergedCounters(mine, done), MergedCounters(mine, done[k := v]);
    assert after.Keys == before.Keys + {k};
    forall j | j in after.Keys
      ensures after[j] == before[k := AddInt(Count(mine, k), v)][j]
    {
    }
  }

  lemma MergedCountersAssociative(a: map<string, Int64>, b: map<string, Int64>, c: map<string, Int64>)
    ensures MergedCounters(MergedCounters(a, b), c) == MergedCounters(a, MergedCounters(b, c))
  {
    var left, right := MergedCounters(MergedCounters(a, b), c), MergedCounters(a, MergedCounters(b, c));
    assert left.Keys == right.Keys;
    forall k | k in left
      ensures left[k] == right[k]
    {
      MergedCountersAt(MergedCounters(a, b), c, k);
      MergedCountersAt(a, MergedCounters(b, c), k);
      MergedCountersAt(a, b, k);
      MergedCountersAt(b, c, k);
      AddIntAssociative(Count(a, k), Count(b, k), Count(c, k));
    }
  }

  lemma MergeAssociative(a: NodeMetadata, b: NodeMetadata, c: NodeMetadata)
    ensures a.Merge(b).Merge(c) == a.Merge(b.Merge(c))
  {
    MergedCountersAssociative(a.counters, b.counters, c.counters);
    assert (a.Labels() + b.Labels()) + c.Labels() == a.Labels() + (b.Labels() + c.Labels());
  }

  /** The empty node is a two-sided identity of Merge, up to copying. */
  lemma MakeNodeMetadataIsMergeIdentity(n: NodeMetadata)
    ensures n.Merge(MakeNodeMetadata()) == n.Copy()
    ensures MakeNodeMetadata().Merge(n) == n.Copy()
  {
    var e := MakeNodeMetadata();
    assert n.Labels() + e.Labels() == n.Labels();
    assert e.Labels() + n.Labels() == n.Labels();
    assert MergedCounters(n.counters, e.counters) == n.counters;
    forall k | k in n.counters
      ensures MergedCounters(e.counters, n.counters)[k] == n.counters[k]
    {
      MergedCountersAt(e.counters, n.counters, k);
    }
    assert MergedCounters(e.counters, n.counters) == n.counters;
  }

  /** `NodeMetadata.Copy`: a fresh node, then the labels and counters copied in one by one. */
  method CopyNodeMetadata(n: NodeMetadata) returns (cp: NodeMetadata)
    ensures cp == n.Copy()
  {
    var labels: map<string, string> := map[];
    var todo := n.Labels().Keys;
    while todo != {}
      invariant todo <= n.Labels().Keys
      invariant labels == n.Labels() - todo
      decreases todo
    {
      var k :| k in todo;
      labels := labels[k := n.Labels()[k]];
      todo := todo - {k};
    }
    var counters: map<string, Int64> := map[];
    todo := n.counters.Keys;
    while todo != {}
      invariant todo <= n.counters.Keys
      invariant counters == n.counters - todo
      decreases todo
    {
      var k :| k in todo;
      counters := counters[k := n.counters[k]];
      todo := todo - {k};
    }
    assert labels == n.Labels() by {
      assert labels.Keys == n.Labels().Keys;
    }
    assert counters == n.counters by {
      assert counters.Keys == n.counters.Keys;
    }
    cp := NodeMetadata(Some(labels), counters, n.adjacency);
  }

  /** The label loop of `NodeMetadata.Merge`: each of `theirs` overwrites the label under its key. */
  method OverrideLabels(mine: map<string, string>, theirs: map<string, string>) returns (labels: map<string, string>)
    ensures labels == mine + theirs
  {
    labels := mine;
    var todo := theirs.Keys;
    while todo != {}
      invariant todo <= theirs.Keys
      invariant labels == mine + (theirs - todo)
      decreases todo
    {
      var k :| k in todo;
      assert theirs - (todo - {k}) == (theirs - todo)[k := theirs[k]];
      labels := labels[k := theirs[k]];
      todo := todo - {k};
    }
    assert theirs - todo == theirs;
  }

  /** The counter loop of `NodeMetadata.Merge`: each of `theirs` is added onto the count under its key. */
  method AddCounters(mine: map<string, Int64>, theirs: map<string, Int64>) returns (counters: map<string, Int64>)
    ensures counters == MergedCounters(mine, theirs)
  {
    counters := mine;
    var todo := theirs.Keys;
    assert MergedCounters(mine, theirs - todo) == mine;
    while todo != {}
      invariant todo <= theirs.Keys
      invariant counters == MergedCounters(mine, theirs - todo)
      decreases todo
    {
      var k :| k in todo;
      MergedCountersStep(mine, theirs - todo, k, theirs[k]);
      assert theirs - (todo - {k}) == (theirs - todo)[k := theirs[k]];
      counters := counters[k := AddInt(Count(mine, k), theirs[k])];
      todo := todo - {k};
    }
    assert theirs - todo == theirs;
  }

  /** `NodeMetadata.Merge`: copy the receiver, then fold in `other`'s labels, counters and adjacency. */
  method MergeNodeMetadata(n: NodeMetadata, other: NodeMetadata) returns (cp: NodeMetadata)
    ensures cp == n.Merge(other)
  {
    cp := CopyNodeMetadata(n);
    var labels := OverrideLabels(cp.metadata.value, other.Labels());
    var counters := AddCounters(cp.counters, other.counters);
    cp := NodeMetadata(Some(labels), counters, cp.adjacency + other.adjacency);
  }

  // ---------------------------------------------------------------------------
  // NodeMetadatas: node ID -> NodeMetadata

  type NodeMetadatas = map<string, NodeMetadata>

  /** What `NodeMetadatas.Copy` computes: every node copied. */
  function CopiedNodes(n: NodeMetadatas): (r: NodeMetadatas)
    ensures r.Keys == n.Keys
  {
    map k | k in n :: n[k].Copy()
  }

  /**
    What `NodeMetadatas.Merge` computes: the receiver's nodes copied, plus
    copies of the nodes of `other` whose IDs the receiver lacks.
   */
  function MergedNodes(n: NodeMetadatas, other: NodeMetadatas): (r: NodeMetadatas)
    ensures r.Keys == n.Keys + other.Keys
  {
    map k | k in n.Keys + other.Keys :: if k in n then n[k].Copy() else other[k].Copy()
  }

  /**
    No deep merge: a node the receiver has is kept exactly as the receiver has
    it (copied), whatever `other` holds under the same ID.
   */
  lemma MergedNodesAt(n: NodeMetadatas, other: NodeMetadatas, k: string)
    ensures k in MergedNodes(n, other) <==> k in n || k in other
    ensures k in n ==> MergedNodes(n, other)[k] == n[k].Copy()
    ensures k !in n && k in other ==> MergedNodes(n, other)[k] == other[k].Copy()
    ensures k in n && n[k].metadata.Some? ==> MergedNodes(n, other)[k] == n[k]
  {
  }

  /** Copying a collection only initialises nil label maps. */
  lemma CopiedNodesAt(n: NodeMetadatas, k: string)
    ensures k in CopiedNodes(n) <==> k in n
    ensures k in n ==> CopiedNodes(n)[k].metadata.Some? && CopiedNodes(n)[k].Labels() == n[k].Labels()
    ensures k in n && n[k].metadata.Some? ==> CopiedNodes(n)[k] == n[k]
  {
  }

  lemma MergedNodesAssociative(a: NodeMetadatas, b: NodeMetadatas, c: NodeMetadatas)
    ensures MergedNodes(MergedNodes(a, b), c) == MergedNodes(a, MergedNodes(b, c))
  {
    var left, right := MergedNodes(MergedNodes(a, b), c), MergedNodes(a, MergedNodes(b, c));
    forall k | k in a.Keys + b.Keys + c.Keys
      ensures left[k] == right[k]
    {
      if k in a {
        CopyIdempotent(a[k]);
      } else if k in b {
        CopyIdempotent(b[k]);
      } else {
        CopyIdempotent(c[k]);
      }
    }
  }

  /** Merging a collection with itself, or with nothing, just copies it. */
  lemma MergedNodesIdempotent(n: NodeMetadatas)
    ensures MergedNodes(n, n) == CopiedNodes(n)
    ensures MergedNodes(n, map[]) == CopiedNodes(n)
    ensures MergedNodes(map[], n) == CopiedNodes(n)
  {
  }

  /**
    The two levels resolve a shared label differently: receiver {"x": "1"} merged with
    other {"x": "2"} keeps "1" at collection level, while merging the two
    nodes directly gives "2".
   */
  lemma MergeAsymmetryExample()
    ensures var a, b := MakeNodeMetadataWith(Some(map["x" := "1"])), MakeNodeMetadataWith(Some(map["x" := "2"]));
            MergedNodes(map["A" := a], map["A" := b])["A"].Labels()["x"] == "1" &&
            a.Merge(b).Labels()["x"] == "2"
  {
  }

  /** Adding one more node of `other` changes the result only at that ID, and only if it was new. */
  lemma MergedNodesStep(n: NodeMetadatas, done: NodeMetadatas, k: string, v: NodeMetadata)
    requires k !in done
    ensures MergedNodes(n, done[k := v]) ==
              if k in MergedNodes(n, done) then MergedNodes(n, done) else MergedNodes(n, done)[k := v.Copy()]
  {
    var before, after := MergedNodes(n, done), MergedNodes(n, done[k := v]);
    assert after.Keys == before.Keys + {k};
  }

  /** `NodeMetadatas.Copy`: copies every node into a fresh map. */
  method CopyNodeMetadatas(n: NodeMetadatas) returns (cp: NodeMetadatas)
    ensures cp == CopiedNodes(n)
  {
    cp := map[];
    var todo := n.Keys;
    while todo != {}
      invariant todo <= n.Keys
      invariant cp == CopiedNodes(n - todo)
      decreases todo
    {
      var k :| k in todo;
      var v := CopyNodeMetadata(n[k]);
      cp := cp[k := v];
      todo := todo - {k};
    }
  }

  /** `NodeMetadatas.Merge`: copy the receiver, then add copies of the nodes it lacks. */
  method MergeNodeMetadatas(n: NodeMetadatas, other: NodeMetadatas) returns (cp: NodeMetadatas)
    ensures cp == MergedNodes(n, other)
  {
    cp := CopyNodeMetadatas(n);
    var todo := other.Keys;
    while todo != {}
      invariant todo <= other.Keys
      invariant cp == MergedNodes(n, other - todo)
      decreases todo
    {
      var k :| k in todo;
      MergedNodesStep(n, other - todo, k, other[k]);
      assert other - (todo - {k}) == (other - todo)[k := other[k]];
      if k !in cp {
        var v := CopyNodeMetadata(other[k]);
        cp := cp[k := v];
      }
      todo := todo - {k};
    }
    assert other - todo == other;
  }
}
