/** GraphMetrics.java: the per-window metrics of a mined process graph and
    their flattening into vectors and into a name-to-value map. Counts are
    Java Integers; they are kept unbounded here. */
module Metrics {

  const NumberOfNodesKey: string := "NUMBER_OF_NODES"
  const NumberOfEdgesKey: string := "NUMBER_OF_EDGES"
  const NetworkDegreeKey: string := "NETWORK_DEGREE"
  const InDegreePrefix: string := "INDEGREE_"
  const OutDegreePrefix: string := "OUTDEGREE_"

  /** Every key of m prefixed with `prefix`, with the same value. */
  function Prefixed(m: map<string, int>, prefix: string): (r: map<string, int>)
    ensures forall n :: n in m ==> prefix + n in r && r[prefix + n] == m[n]
    ensures forall k :: k in r ==> |prefix| <= |k| && k[..|prefix|] == prefix
  {
    PrefixInjective(prefix);
    map n | n in m :: prefix + n := m[n]
  }

  /** Each key of Prefixed(m, prefix) comes from a key of m. */
  lemma PrefixedKeys(m: map<string, int>, prefix: string, k: string)
    requires k in Prefixed(m, prefix)
    ensures k == prefix + k[|prefix|..] && k[|prefix|..] in m
  {
  }

  lemma PrefixInjective(prefix: string)
    ensures forall a, b :: prefix + a == prefix + b ==> a == b
  {
    forall a, b | prefix + a == prefix + b ensures a == b {
      assert a == (prefix + a)[|prefix|..];
      assert b == (prefix + b)[|prefix|..];
    }
  }

  /** Copying one more entry under its prefixed key. */
  lemma PrefixedInsert(m: map<string, int>, n: string, v: int, prefix: string)
    ensures Prefixed(m[n := v], prefix) == Prefixed(m, prefix)[prefix + n := v]
  {
    var lhs := Prefixed(m[n := v], prefix);
    var rhs := Prefixed(m, prefix)[prefix + n := v];
    forall k | k in lhs ensures k in rhs && lhs[k] == rhs[k] {
      PrefixedKeys(m[n := v], prefix, k);
    }
    forall k | k in rhs ensures k in lhs {
      if k != prefix + n {
        PrefixedKeys(m, prefix, k);
      }
    }
  }

  lemma PrefixedEmpty(m: map<string, int>)
    ensures Prefixed(m, "") == m
  {
    forall k | k in Prefixed(m, "") ensures k in m {
      PrefixedKeys(m, "", k);
    }
    assert forall n :: "" + n == n;
  }

  lemma UnionUpdate(a: map<string, int>, b: map<string, int>, k: string, v: int)
    ensures (a + b)[k := v] == a + b[k := v]
  {
  }

  /** One iteration of the copying loop of flatMetrics. */
  lemma PutStep(result: map<string, int>, m: map<string, int>, todo: set<string>,
                n: string, prefix: string)
    requires n in todo && todo <= m.Keys
    ensures (result + Prefixed(m - todo, prefix))[prefix + n := m[n]]
            == result + Prefixed(m - (todo - {n}), prefix)
  {
    PrefixedInsert(m - todo, n, m[n], prefix);
    assert (m - todo)[n := m[n]] == m - (todo - {n});
    UnionUpdate(result, Prefixed(m - todo, prefix), prefix + n, m[n]);
  }

  /** The map flatMetrics returns (without DENSITY): the three scalars, the
      in-degrees under INDEGREE_ keys, the out-degrees under OUTDEGREE_ keys
      and the arc counts under their own keys, a later put overriding an
      earlier one for the same key. */
  function FlatMetricsOf(numberOfNodes: int, numberOfEdges: int, networkDegree: int,
                         incoming: map<string, int>, outgoing: map<string, int>,
                         arcs: map<string, int>): map<string, int>
  {
    map[NumberOfNodesKey := numberOfNodes, NumberOfEdgesKey := numberOfEdges,
        NetworkDegreeKey := networkDegree]
    + Prefixed(incoming, InDegreePrefix) + Prefixed(outgoing, OutDegreePrefix) + arcs
  }

  /** `keys` lists each key of m exactly once: the explicit order that stands
      in for a HashMap's iteration order. */
  predicate EnumeratesKeys(keys: seq<string>, m: map<string, int>)
  {
    && (forall i, j :: 0 <= i < j < |keys| ==> keys[i] != keys[j])
    && (forall k :: k in m ==> k in keys)
    && (forall i :: 0 <= i < |keys| ==> keys[i] in m)
  }

  /** Two windows flattened in the same key order give vectors whose entries
      at each position belong to the same key. */
  predicate Aligned(keys: seq<string>, reference: map<string, int>, detection: map<string, int>)
  {
    EnumeratesKeys(keys, reference) && EnumeratesKeys(keys, detection)
  }

  /** The loop of flatMetrics that copies one map under prefixed keys. */
  method PutAllPrefixed(result: map<string, int>, m: map<string, int>, prefix: string)
    returns (r: map<string, int>)
    ensures r == result + Prefixed(m, prefix)
  {
    r := result;
    var todo := m.Keys;
    while todo != {}
      invariant todo <= m.Keys
      invariant r == result + Prefixed(m - todo, prefix)
      decreases todo
    {
      var n :| n in todo;
      PutStep(result, m, todo, n, prefix);
      r := r[prefix + n := m[n]];
      todo := todo - {n};
    }
    assert m - todo == m;
  }

  class GraphMetrics {
    var numberOfNodes: int
    var numberOfEdges: int
    var outgoingEdges: map<string, int>
    var incomingEdges: map<string, int>
    var nodeDegree: map<string, int>
    var nodeCount: map<string, int>
    var arcCount: map<string, int>
    var networkDegree: int

    constructor ()
      ensures numberOfNodes == 0 && numberOfEdges == 0 && networkDegree == 0
      ensures outgoingEdges == map[] && incomingEdges == map[] && nodeDegree == map[]
      ensures nodeCount == map[] && arcCount == map[]
    {
      numberOfNodes, numberOfEdges, networkDegree := 0, 0, 0;
      outgoingEdges, incomingEdges, nodeDegree := map[], map[], map[];
      nodeCount, arcCount := map[], map[];
    }

    method SetNumberOfNodes(n: int)
      modifies this`numberOfNodes
      ensures numberOfNodes == n
    {
      numberOfNodes := n;
    }

    method SetNumberOfEdges(n: int)
      modifies this`numberOfEdges
      ensures numberOfEdges == n
    {
      numberOfEdges := n;
    }

    method SetNetworkDegree(d: int)
      modifies this`networkDegree
      ensures networkDegree == d
    {
      networkDegree := d;
    }

    method SetNodeCount(m: map<string, int>)
      modifies this`nodeCount
      ensures nodeCount == m
    {
      nodeCount := m;
    }

    method SetArcCount(m: map<string, int>)
      modifies this`arcCount
      ensures arcCount == m
    {
      arcCount := m;
    }

    /** putOutgoingEdges: only this activity's entry of outgoingEdges changes. */
    method PutOutgoingEdges(activity: string, count: int)
      modifies this`outgoingEdges
      ensures outgoingEdges == old(outgoingEdges)[activity := count]
    {
      outgoingEdges := outgoingEdges[activity := count];
    }

    /** putIncomingEdges: only this activity's entry of incomingEdges changes. */
    method PutIncomingEdges(activity: string, count: int)
      modifies this`incomingEdges
      ensures incomingEdges == old(incomingEdges)[activity := count]
    {
      incomingEdges := incomingEdges[activity := count];
    }

    /** putNodeDegree: only this activity's entry of nodeDegree changes. */
    method PutNodeDegree(activity: string, count: int)
      modifies this`nodeDegree
      ensures nodeDegree == old(nodeDegree)[activity := count]
    {
      nodeDegree := nodeDegree[activity := count];
    }

    /** flatArcMetrics: one value per arcCount key, in the given key order. */
    method FlatArcMetrics(keys: seq<string>) returns (r: seq<int>)
      requires EnumeratesKeys(keys, arcCount)
      ensures |r| == |keys| == |arcCount|
      ensures forall i :: 0 <= i < |keys| ==> r[i] == arcCount[keys[i]]
    {
      r := [];
      for i := 0 to |keys|
        invariant |r| == i
        invariant forall j :: 0 <= j < i ==> r[j] == arcCount[keys[j]]
      {
        r := r + [arcCount[keys[i]]];
      }
      KeyCount(keys, arcCount);
    }

    /** flatNodeMetrics: one value per nodeCount key, in the given key order. */
    method FlatNodeMetrics(keys: seq<string>) returns (r: seq<int>)
      requires EnumeratesKeys(keys, nodeCount)
      ensures |r| == |keys| == |nodeCount|
      ensures forall i :: 0 <= i < |keys| ==> r[i] == nodeCount[keys[i]]
    {
      r := [];
      for i := 0 to |keys|
        invariant |r| == i
        invariant forall j :: 0 <= j < i ==> r[j] == nodeCount[keys[j]]
      {
        r := r + [nodeCount[keys[i]]];
      }
      KeyCount(keys, nodeCount);
    }

    /** flatMetrics, without the DENSITY entry. */
    method FlatMetrics() returns (r: map<string, int>)
      ensures r == FlatMetricsOf(numberOfNodes, numberOfEdges, networkDegree,
                                 incomingEdges, outgoingEdges, arcCount)
    {
      r := map[];
      r := r[NumberOfNodesKey := numberOfNodes];
      r := r[NumberOfEdgesKey := numberOfEdges];
      r := r[NetworkDegreeKey := networkDegree];
      r := PutAllPrefixed(r, incomingEdges, InDegreePrefix);
      r := PutAllPrefixed(r, outgoingEdges, OutDegreePrefix);
      r := PutAllPrefixed(r, arcCount, "");
      PrefixedEmpty(arcCount);
    }
  }

  /** A duplicate-free key list is as long as the map. */
  lemma {:induction false} KeyCount(keys: seq<string>, m: map<string, int>)
    requires EnumeratesKeys(keys, m)
    ensures |keys| == |m|
    decreases |keys|
  {
    if |keys| == 0 {
      assert m.Keys == {};
    } else {
      var k := keys[|keys| - 1];
      var rest := keys[..|keys| - 1];
      var m' := m - {k};
      forall x | x in m' ensures x in rest {
        var i :| 0 <= i < |keys| && keys[i] == x;
        assert rest[i] == x;
      }
      forall i | 0 <= i < |rest| ensures rest[i] in m' {
        assert keys[i] != keys[|keys| - 1];
      }
      KeyCount(rest, m');
      assert m.Keys == m'.Keys + {k};
    }
  }

  /** In flatMetrics, arc counts are put last, so an arc key always maps to
      its arc count. */
  lemma FlatMetricsArc(numberOfNodes: int, numberOfEdges: int, networkDegree: int,
                       incoming: map<string, int>, outgoing: map<string, int>,
                       arcs: map<string, int>, k: string)
    requires k in arcs
    ensures FlatMetricsOf(numberOfNodes, numberOfEdges, networkDegree, incoming, outgoing, arcs)[k]
            == arcs[k]
  {
  }

  /** INDEGREE_ keys are never overwritten by OUTDEGREE_ keys: an in-degree
      survives unless an arc has the same name. */
  lemma FlatMetricsInDegree(numberOfNodes: int, numberOfEdges: int, networkDegree: int,
                            incoming: map<string, int>, outgoing: map<string, int>,
                            arcs: map<string, int>, n: string)
    requires n in incoming && InDegreePrefix + n !in arcs
    ensures FlatMetricsOf(numberOfNodes, numberOfEdges, networkDegree, incoming, outgoing, arcs)
              [InDegreePrefix + n] == incoming[n]
  {
    var k := InDegreePrefix + n;
    assert k[0] == 'I';
  }

  /** An out-degree survives unless an arc has the same name. */
  lemma FlatMetricsOutDegree(numberOfNodes: int, numberOfEdges: int, networkDegree: int,
                             incoming: map<string, int>, outgoing: map<string, int>,
                             arcs: map<string, int>, n: string)
    requires n in outgoing && OutDegreePrefix + n !in arcs
    ensures FlatMetricsOf(numberOfNodes, numberOfEdges, networkDegree, incoming, outgoing, arcs)
              [OutDegreePrefix + n] == outgoing[n]
  {
  }

  /** No INDEGREE_ or OUTDEGREE_ key starts with 'N', as every scalar name does. */
  lemma DegreeKeysAvoidScalars(m: map<string, int>, prefix: string)
    requires prefix == InDegreePrefix || prefix == OutDegreePrefix
    ensures NumberOfNodesKey !in Prefixed(m, prefix)
    ensures NumberOfEdgesKey !in Prefixed(m, prefix)
    ensures NetworkDegreeKey !in Prefixed(m, prefix)
  {
    assert prefix[0] != 'N';
    assert NumberOfNodesKey[0] == 'N' && NumberOfEdgesKey[0] == 'N' && NetworkDegreeKey[0] == 'N';
  }

  /** The three scalar names are different from each other. */
  lemma ScalarKeysDistinct()
    ensures NumberOfNodesKey != NumberOfEdgesKey && NumberOfNodesKey != NetworkDegreeKey
    ensures NumberOfEdgesKey != NetworkDegreeKey
  {
    assert NumberOfNodesKey[10] != NumberOfEdgesKey[10];
    assert NumberOfNodesKey[1] != NetworkDegreeKey[1];
    assert NumberOfEdgesKey[1] != NetworkDegreeKey[1];
  }

  /** A key of m that extra lacks keeps its value in m + extra. */
  lemma UnionKeeps(m: map<string, int>, extra: map<string, int>, k: string)
    requires k in m && k !in extra
    ensures k in m + extra && (m + extra)[k] == m[k]
  {
  }

  /** The scalars are put first and under names no degree key can take, so
      each keeps its field's value unless an arc has the same name. */
  lemma FlatMetricsNumberOfNodes(numberOfNodes: int, numberOfEdges: int, networkDegree: int,
      incoming: map<string, int>, outgoing: map<string, int>, arcs: map<string, int>)
    requires NumberOfNodesKey !in arcs
    ensures FlatMetricsOf(numberOfNodes, numberOfEdges, networkDegree, incoming, outgoing, arcs)
              [NumberOfNodesKey] == numberOfNodes
  {
    ScalarKeysDistinct();
    var scalars := map[NumberOfNodesKey := numberOfNodes, NumberOfEdgesKey := numberOfEdges,
                       NetworkDegreeKey := networkDegree];
    assert scalars[NumberOfNodesKey] == numberOfNodes;
    var prefixedIn, prefixedOut := Prefixed(incoming, InDegreePrefix), Prefixed(outgoing, OutDegreePrefix);
    DegreeKeysAvoidScalars(incoming, InDegreePrefix);
    UnionKeeps(scalars, prefixedIn, NumberOfNodesKey);
    DegreeKeysAvoidScalars(outgoing, OutDegreePrefix);
    UnionKeeps(scalars + prefixedIn, prefixedOut, NumberOfNodesKey);
    UnionKeeps(scalars + prefixedIn + prefixedOut, arcs, NumberOfNodesKey);
  }

  /** As FlatMetricsNumberOfNodes, for NUMBER_OF_EDGES. */
  lemma FlatMetricsNumberOfEdges(numberOfNodes: int, numberOfEdges: int, networkDegree: int,
      incoming: map<string, int>, outgoing: map<string, int>, arcs: map<string, int>)
    requires NumberOfEdgesKey !in arcs
    ensures FlatMetricsOf(numberOfNodes, numberOfEdges, networkDegree, incoming, outgoing, arcs)
              [NumberOfEdgesKey] == numberOfEdges
  {
    ScalarKeysDistinct();
    var scalars := map[NumberOfNodesKey := numberOfNodes, NumberOfEdgesKey := numberOfEdges,
                       NetworkDegreeKey := networkDegree];
    assert scalars[NumberOfEdgesKey] == numberOfEdges;
    var prefixedIn, prefixedOut := Prefixed(incoming, InDegreePrefix), Prefixed(outgoing, OutDegreePrefix);
    DegreeKeysAvoidScalars(incoming, InDegreePrefix);
    UnionKeeps(scalars, prefixedIn, NumberOfEdgesKey);
    DegreeKeysAvoidScalars(outgoing, OutDegreePrefix);
    UnionKeeps(scalars + prefixedIn, prefixedOut, NumberOfEdgesKey);
    UnionKeeps(scalars + prefixedIn + prefixedOut, arcs, NumberOfEdgesKey);
  }

  /** As FlatMetricsNumberOfNodes, for NETWORK_DEGREE. */
  lemma FlatMetricsNetworkDegree(numberOfNodes: int, numberOfEdges: int, networkDegree: int,
      incoming: map<string, int>, outgoing: map<string, int>, arcs: map<string, int>)
    requires NetworkDegreeKey !in arcs
    ensures FlatMetricsOf(numberOfNodes, numberOfEdges, networkDegree, incoming, outgoing, arcs)
              [NetworkDegreeKey] == networkDegree
  {
    ScalarKeysDistinct();
    var scalars := map[NumberOfNodesKey := numberOfNodes, NumberOfEdgesKey := numberOfEdges,
                       NetworkDegreeKey := networkDegree];
    assert scalars[NetworkDegreeKey] == networkDegree;
    var prefixedIn, prefixedOut := Prefixed(incoming, InDegreePrefix), Prefixed(outgoing, OutDegreePrefix);
    DegreeKeysAvoidScalars(incoming, InDegreePrefix);
    UnionKeeps(scalars, prefixedIn, NetworkDegreeKey);
    DegreeKeysAvoidScalars(outgoing, OutDegreePrefix);
    UnionKeeps(scalars + prefixedIn, prefixedOut, NetworkDegreeKey);
    UnionKeeps(scalars + prefixedIn + prefixedOut, arcs, NetworkDegreeKey);
  }
}
