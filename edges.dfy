/**
  Edge metadata (report/topology.go:101-156) and the keyed collection of it,
  `EdgeMetadatas` (report/topology.go:53-74).
 */
module Edges {
  import opened Wrappers
  import opened Numeric

  /** The optional counters observed for one directed edge over some window. */
  datatype EdgeMetadata = EdgeMetadata(
    egressPacketCount: Option<U64>,
    ingressPacketCount: Option<U64>,
    egressByteCount: Option<U64>,
    ingressByteCount: Option<U64>,
    maxConnCountTCP: Option<U64>)
  {
    /** A value copy; every field keeps its presence and its value. */
    function Copy(): (cp: EdgeMetadata)
      ensures cp == this
    {
      EdgeMetadata(egressPacketCount, ingressPacketCount, egressByteCount,
                   ingressByteCount, maxConnCountTCP)
    }

    /**
      Folds a later observation of the same edge into this one: traffic
      counters add up, the connection high-water mark takes the maximum.
     */
    function Merge(other: EdgeMetadata): (r: EdgeMetadata)
      ensures r.egressPacketCount.Some? <==> egressPacketCount.Some? || other.egressPacketCount.Some?
      ensures r.ingressPacketCount.Some? <==> ingressPacketCount.Some? || other.ingressPacketCount.Some?
      ensures r.egressByteCount.Some? <==> egressByteCount.Some? || other.egressByteCount.Some?
      ensures r.ingressByteCount.Some? <==> ingressByteCount.Some? || other.ingressByteCount.Some?
      ensures r.maxConnCountTCP.Some? <==> maxConnCountTCP.Some? || other.maxConnCountTCP.Some?
    {
      EdgeMetadata(
        Numeric.Merge(egressPacketCount, other.egressPacketCount, SumOp),
        Numeric.Merge(ingressPacketCount, other.ingressPacketCount, SumOp),
        Numeric.Merge(egressByteCount, other.egressByteCount, SumOp),
        Numeric.Merge(ingressByteCount, other.ingressByteCount, SumOp),
        Numeric.Merge(maxConnCountTCP, other.maxConnCountTCP, MaxOp))
    }

    /**
      Adds up two different edges observed over the same window; the
      high-water mark is summed too, as a best-effort approximation.
     */
    function Flatten(other: EdgeMetadata): (r: EdgeMetadata)
      ensures r.egressPacketCount.Some? <==> egressPacketCount.Some? || other.egressPacketCount.Some?
      ensures r.ingressPacketCount.Some? <==> ingressPacketCount.Some? || other.ingressPacketCount.Some?
      ensures r.egressByteCount.Some? <==> egressByteCount.Some? || other.egressByteCount.Some?
      ensures r.ingressByteCount.Some? <==> ingressByteCount.Some? || other.ingressByteCount.Some?
      ensures r.maxConnCountTCP.Some? <==> maxConnCountTCP.Some? || other.maxConnCountTCP.Some?
      ensures maxConnCountTCP.Some? && other.maxConnCountTCP.Some? &&
              maxConnCountTCP.value + other.maxConnCountTCP.value < U64_MODULUS ==>
                r.maxConnCountTCP == Some(maxConnCountTCP.value + other.maxConnCountTCP.value)
    {
      EdgeMetadata(
        Numeric.Merge(egressPacketCount, other.egressPacketCount, SumOp),
        Numeric.Merge(ingressPacketCount, other.ingressPacketCount, SumOp),
        Numeric.Merge(egressByteCount, other.egressByteCount, SumOp),
        Numeric.Merge(ingressByteCount, other.ingressByteCount, SumOp),
        Numeric.Merge(maxConnCountTCP, other.maxConnCountTCP, SumOp))
    }
  }

  /** The zero value `EdgeMetadata{}`: nothing measured. */
  const Empty: EdgeMetadata := EdgeMetadata(None, None, None, None, None)

  /** Per field: the four traffic counters are the optional sum, the high-water mark the optional max. */
  lemma MergeFields(e: EdgeMetadata, other: EdgeMetadata)
    ensures e.Merge(other).egressPacketCount == Numeric.Merge(e.egressPacketCount, other.egressPacketCount, SumOp)
    ensures e.Merge(other).ingressPacketCount == Numeric.Merge(e.ingressPacketCount, other.ingressPacketCount, SumOp)
    ensures e.Merge(other).egressByteCount == Numeric.Merge(e.egressByteCount, other.egressByteCount, SumOp)
    ensures e.Merge(other).ingressByteCount == Numeric.Merge(e.ingressByteCount, other.ingressByteCount, SumOp)
    ensures e.Merge(other).maxConnCountTCP == Numeric.Merge(e.maxConnCountTCP, other.maxConnCountTCP, MaxOp)
  {
  }

  /** The merged high-water mark is at least what either side measured. */
  lemma MergeKeepsHighWaterMark(e: EdgeMetadata, other: EdgeMetadata)
    ensures e.maxConnCountTCP.Some? ==> e.Merge(other).maxConnCountTCP.value >= e.maxConnCountTCP.value
    ensures other.maxConnCountTCP.Some? ==> e.Merge(other).maxConnCountTCP.value >= other.maxConnCountTCP.value
  {
  }

  /** Per field: all five counters, the high-water mark included, are the optional sum. */
  lemma FlattenFields(e: EdgeMetadata, other: EdgeMetadata)
    ensures e.Flatten(other).egressPacketCount == Numeric.Merge(e.egressPacketCount, other.egressPacketCount, SumOp)
    ensures e.Flatten(other).ingressPacketCount == Numeric.Merge(e.ingressPacketCount, other.ingressPacketCount, SumOp)
    ensures e.Flatten(other).egressByteCount == Numeric.Merge(e.egressByteCount, other.egressByteCount, SumOp)
    ensures e.Flatten(other).ingressByteCount == Numeric.Merge(e.ingressByteCount, other.ingressByteCount, SumOp)
    ensures e.Flatten(other).maxConnCountTCP == Numeric.Merge(e.maxConnCountTCP, other.maxConnCountTCP, SumOp)
  {
  }

  /**
    Flatten and Merge agree on the four traffic counters; on the high-water
    mark they agree exactly when at most one side measured it or one side
    measured zero.
   */
  lemma FlattenVersusMerge(e: EdgeMetadata, other: EdgeMetadata)
    ensures e.Flatten(other).(maxConnCountTCP := None) == e.Merge(other).(maxConnCountTCP := None)
    ensures e.Flatten(other).maxConnCountTCP == e.Merge(other).maxConnCountTCP <==>
              (e.maxConnCountTCP.None? || other.maxConnCountTCP.None? ||
               e.maxConnCountTCP.value == 0 || other.maxConnCountTCP.value == 0)
  {
    if e.maxConnCountTCP.Some? && other.maxConnCountTCP.Some? {
      var a, b := e.maxConnCountTCP.value, other.maxConnCountTCP.value;
      assert Sum(a, b) == Max(a, b) <==> a == 0 || b == 0;
    }
  }

  /** Merging nothing into an edge, or an edge into nothing, gives the edge back. */
  lemma EmptyIsMergeIdentity(e: EdgeMetadata)
    ensures Empty.Merge(e) == e
    ensures e.Merge(Empty) == e
    ensures Empty.Flatten(e) == e && e.Flatten(Empty) == e
  {
  }

  lemma MergeCommutative(a: EdgeMetadata, b: EdgeMetadata)
    ensures a.Merge(b) == b.Merge(a)
  {
    Numeric.MergeCommutative(a.egressPacketCount, b.egressPacketCount, SumOp);
    Numeric.MergeCommutative(a.ingressPacketCount, b.ingressPacketCount, SumOp);
    Numeric.MergeCommutative(a.egressByteCount, b.egressByteCount, SumOp);
    Numeric.MergeCommutative(a.ingressByteCount, b.ingressByteCount, SumOp);
    Numeric.MergeCommutative(a.maxConnCountTCP, b.maxConnCountTCP, MaxOp);
  }

  lemma MergeAssociative(a: EdgeMetadata, b: EdgeMetadata, c: EdgeMetadata)
    ensures a.Merge(b).Merge(c) == a.Merge(b.Merge(c))
  {
    Numeric.MergeAssociative(a.egressPacketCount, b.egressPacketCount, c.egressPacketCount, SumOp);
    Numeric.MergeAssociative(a.ingressPacketCount, b.ingressPacketCount, c.ingressPacketCount, SumOp);
    Numeric.MergeAssociative(a.egressByteCount, b.egressByteCount, c.egressByteCount, SumOp);
    Numeric.MergeAssociative(a.ingressByteCount, b.ingressByteCount, c.ingressByteCount, SumOp);
    Numeric.MergeAssociative(a.maxConnCountTCP, b.maxConnCountTCP, c.maxConnCountTCP, MaxOp);
  }

  lemma FlattenCommutative(a: EdgeMetadata, b: EdgeMetadata)
    ensures a.Flatten(b) == b.Flatten(a)
  {
    Numeric.MergeCommutative(a.egressPacketCount, b.egressPacketCount, SumOp);
    Numeric.MergeCommutative(a.ingressPacketCount, b.ingressPacketCount, SumOp);
    Numeric.MergeCommutative(a.egressByteCount, b.egressByteCount, SumOp);
    Numeric.MergeCommutative(a.ingressByteCount, b.ingressByteCount, SumOp);
    Numeric.MergeCommutative(a.maxConnCountTCP, b.maxConnCountTCP, SumOp);
  }

  lemma FlattenAssociative(a: EdgeMetadata, b: EdgeMetadata, c: EdgeMetadata)
    ensures a.Flatten(b).Flatten(c) == a.Flatten(b.Flatten(c))
  {
    Numeric.MergeAssociative(a.egressPacketCount, b.egressPacketCount, c.egressPacketCount, SumOp);
    Numeric.MergeAssociative(a.ingressPacketCount, b.ingressPacketCount, c.ingressPacketCount, SumOp);
    Numeric.MergeAssociative(a.egressByteCount, b.egressByteCount, c.egressByteCount, SumOp);
    Numeric.MergeAssociative(a.ingressByteCount, b.ingressByteCount, c.ingressByteCount, SumOp);
    Numeric.MergeAssociative(a.maxConnCountTCP, b.maxConnCountTCP, c.maxConnCountTCP, SumOp);
  }

  /**
    Re-merging an edge with itself keeps the high-water mark but doubles
    every measured traffic counter, modulo 2^64.
   */
  lemma MergeSelf(e: EdgeMetadata)
    ensures e.Merge(e).maxConnCountTCP == e.maxConnCountTCP
    ensures e.egressPacketCount.Some? ==>
              e.Merge(e).egressPacketCount == Some(Sum(e.egressPacketCount.value, e.egressPacketCount.value))
    ensures e.ingressPacketCount.Some? ==>
              e.Merge(e).ingressPacketCount == Some(Sum(e.ingressPacketCount.value, e.ingressPacketCount.value))
    ensures e.egressByteCount.Some? ==>
              e.Merge(e).egressByteCount == Some(Sum(e.egressByteCount.value, e.egressByteCount.value))
    ensures e.ingressByteCount.Some? ==>
              e.Merge(e).ingressByteCount == Some(Sum(e.ingressByteCount.value, e.ingressByteCount.value))
  {
  }

  /** The worked examples: 10 + 5 packets; an absent side; 1 merged with itself; high-water marks 4 and 6. */
  lemma MergeExamples()
    ensures Empty.(egressPacketCount := Some(1)).Merge(Empty.(egressPacketCount := Some(1))).egressPacketCount == Some(2)
    ensures Empty.(egressPacketCount := Some(10)).Merge(Empty.(egressPacketCount := Some(5))).egressPacketCount == Some(15)
    ensures Empty.(egressPacketCount := Some(10)).Merge(Empty).egressPacketCount == Some(10)
    ensures Empty.(maxConnCountTCP := Some(4)).Merge(Empty.(maxConnCountTCP := Some(6))).maxConnCountTCP == Some(6)
    ensures Empty.(maxConnCountTCP := Some(4)).Flatten(Empty.(maxConnCountTCP := Some(6))).maxConnCountTCP == Some(10)
  {
  }

  // ---------------------------------------------------------------------------
  // EdgeMetadatas: edge key -> EdgeMetadata

  type EdgeMetadatas = map<string, EdgeMetadata>

  /** The entry under `k`, or the zero value a Go map read yields for a missing key. */
  function Lookup(e: EdgeMetadatas, k: string): EdgeMetadata
  {
    if k in e then e[k] else Empty
  }

  /** What `EdgeMetadatas.Merge` computes: every key of `other` deep-merged into the receiver's entry. */
  function MergedEdges(e: EdgeMetadatas, other: EdgeMetadatas): (r: EdgeMetadatas)
    ensures r.Keys == e.Keys + other.Keys
  {
    map k | k in e.Keys + other.Keys ::
      if k in other then Lookup(e, k).Merge(other[k]) else e[k]
  }

  /**
    The key set is the union; a key only in the receiver keeps its value, a key
    only in `other` arrives unchanged, a key in both is the per-edge merge.
   */
  lemma MergedEdgesAt(e: EdgeMetadatas, other: EdgeMetadatas, k: string)
    ensures k in MergedEdges(e, other) <==> k in e || k in other
    ensures k in e && k !in other ==> MergedEdges(e, other)[k] == e[k]
    ensures k !in e && k in other ==> MergedEdges(e, other)[k] == other[k]
    ensures k in e && k in other ==> MergedEdges(e, other)[k] == e[k].Merge(other[k])
  {
    if k !in e && k in other {
      EmptyIsMergeIdentity(other[k]);
    }
  }

  lemma MergedEdgesCommutative(a: EdgeMetadatas, b: EdgeMetadatas)
    ensures MergedEdges(a, b) == MergedEdges(b, a)
  {
    forall k | k in a.Keys + b.Keys
      ensures MergedEdges(a, b)[k] == MergedEdges(b, a)[k]
    {
      MergedEdgesAt(a, b, k);
      MergedEdgesAt(b, a, k);
      if k in a && k in b {
        MergeCommutative(a[k], b[k]);
      }
    }
  }

  lemma MergedEdgesAssociative(a: EdgeMetadatas, b: EdgeMetadatas, c: EdgeMetadatas)
    ensures MergedEdges(MergedEdges(a, b), c) == MergedEdges(a, MergedEdges(b, c))
  {
    var left, right := MergedEdges(MergedEdges(a, b), c), MergedEdges(a, MergedEdges(b, c));
    forall k | k in a.Keys + b.Keys + c.Keys
      ensures left[k] == right[k]
    {
      MergedEdgesAt(MergedEdges(a, b), c, k);
      MergedEdgesAt(a, MergedEdges(b, c), k);
      MergedEdgesAt(a, b, k);
      MergedEdgesAt(b, c, k);
      if k in a && k in b && k in c {
        MergeAssociative(a[k], b[k], c[k]);
      }
    }
  }

  lemma MergedEdgesEmpty(e: EdgeMetadatas)
    ensures MergedEdges(e, map[]) == e
    ensures MergedEdges(map[], e) == e
  {
    forall k | k in e ensures MergedEdges(map[], e)[k] == e[k] {
      EmptyIsMergeIdentity(e[k]);
    }
  }

  /** Merging one more entry of `other` updates exactly that key of the result. */
  lemma MergedEdgesStep(e: EdgeMetadatas, done: EdgeMetadatas, k: string, v: EdgeMetadata)
    requires k !in done
    ensures MergedEdges(e, done[k := v]) == MergedEdges(e, done)[k := Lookup(MergedEdges(e, done), k).Merge(v)]
  {
    var before, after := MergedEdges(e, done), MergedEdges(e, done[k := v]);
    assert Lookup(before, k) == Lookup(e, k);
    assert after.Keys == before.Keys + {k};
    forall j | j in after.Keys
      ensures after[j] == before[k := Lookup(before, k).Merge(v)][j]
    {
      if j != k {
        assert j in done[k := v] <==> j in done;
      }
    }
  }

  /** `EdgeMetadatas.Copy`: copies every entry into a fresh map. */
  method CopyEdgeMetadatas(e: EdgeMetadatas) returns (cp: EdgeMetadatas)
    ensures cp == e
  {
    cp := map[];
    var todo := e.Keys;
    while todo != {}
      invariant todo <= e.Keys
      invariant cp == e - todo
      decreases todo
    {
      var k :| k in todo;
      cp := cp[k := e[k].Copy()];
      todo := todo - {k};
    }
  }

  /** `EdgeMetadatas.Merge`: copies the receiver, then merges each entry of `other` into it. */
  method MergeEdgeMetadatas(e: EdgeMetadatas, other: EdgeMetadatas) returns (cp: EdgeMetadatas)
    ensures cp == MergedEdges(e, other)
  {
    cp := CopyEdgeMetadatas(e);
    var todo := other.Keys;
    while todo != {}
      invariant todo <= other.Keys
      invariant cp == MergedEdges(e, other - todo)
      decreases todo
    {
      var k :| k in todo;
      MergedEdgesStep(e, other - todo, k, other[k]);
      assert other - (todo - {k}) == (other - todo)[k := other[k]];
      cp := cp[k := Lookup(cp, k).Merge(other[k])];
      todo := todo - {k};
    }
    assert other - todo == other;
  }
}
