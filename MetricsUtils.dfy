/** MetricsUtils.getGraphMetrics: the GraphMetrics of one mined heuristics
    net. The net and the graph the miner converts it into are foreign
    structures; they are given here by the few values the method reads. */
module MetricsUtils {
  import opened JavaStrings
  import opened Metrics

  /** An XEventClass of the net's activity mapping: its id and its index
      into the firing and arc-usage tables. */
  datatype EventClass = EventClass(id: string, index: int)

  /** The parts of a HeuristicsNet that getGraphMetrics reads: the activity
      mapping, getActivitiesActualFiring() and getArcUsage(). The arc usage
      is a matrix of doubles in the net; the (int) cast of its entries is
      taken as already done. */
  datatype HeuristicsNet = HeuristicsNet(mapping: seq<EventClass>, actualFiring: seq<int>,
                                         arcUsage: seq<seq<int>>)

  /** An activity of the converted graph: its label and the number of its
      in- and out-edges. */
  datatype Activity = Activity(name: string, inEdges: nat, outEdges: nat)

  /** The converted HeuristicsNetGraph: node and edge counts and activities. */
  datatype NetGraph = NetGraph(nodes: nat, edges: nat, activities: seq<Activity>)

  /** Every index of the mapping addresses the firing and arc-usage tables. */
  predicate WellIndexed(net: HeuristicsNet)
  {
    forall i, j :: 0 <= i < |net.mapping| && 0 <= j < |net.mapping| ==>
      && 0 <= net.mapping[i].index < |net.actualFiring|
      && net.mapping[i].index < |net.arcUsage|
      && 0 <= net.mapping[j].index < |net.arcUsage[net.mapping[i].index]|
  }

  /** The key under which an arc from a to b is counted. */
  function Arc(a: string, b: string): string
  {
    a + "->" + b
  }

  /** Successive HashMap.put calls, in order: a later entry for a key wins. */
  function PutAll(m: map<string, int>, kvs: seq<(string, int)>): map<string, int>
    decreases |kvs|
  {
    if |kvs| == 0 then m
    else PutAll(m, kvs[..|kvs| - 1])[kvs[|kvs| - 1].0 := kvs[|kvs| - 1].1]
  }

  /** A zero for every name. */
  function Zeros(names: seq<string>): seq<(string, int)>
  {
    if |names| == 0 then []
    else Zeros(names[..|names| - 1]) + [(names[|names| - 1], 0)]
  }

  /** A zero for the arc from a to every name of tos. */
  function ZeroRow(a: string, tos: seq<string>): seq<(string, int)>
  {
    if |tos| == 0 then []
    else ZeroRow(a, tos[..|tos| - 1]) + [(Arc(a, tos[|tos| - 1]), 0)]
  }

  /** A zero for every arc from a name of froms to a name of tos. */
  function ZeroArcs(froms: seq<string>, tos: seq<string>): seq<(string, int)>
  {
    if |froms| == 0 then []
    else ZeroArcs(froms[..|froms| - 1], tos) + ZeroRow(froms[|froms| - 1], tos)
  }

  /** How often each event class of cs fired. */
  function Firing(cs: seq<EventClass>, firing: seq<int>): seq<(string, int)>
    requires forall i :: 0 <= i < |cs| ==> 0 <= cs[i].index < |firing|
  {
    if |cs| == 0 then []
    else Firing(cs[..|cs| - 1], firing) + [(cs[|cs| - 1].id, firing[cs[|cs| - 1].index])]
  }

  /** How often the arc from c to each event class of ds was used. */
  function UsageRow(c: EventClass, ds: seq<EventClass>, usage: seq<seq<int>>): seq<(string, int)>
    requires 0 <= c.index < |usage|
    requires forall j :: 0 <= j < |ds| ==> 0 <= ds[j].index < |usage[c.index]|
  {
    if |ds| == 0 then []
    else UsageRow(c, ds[..|ds| - 1], usage)
         + [(Arc(c.id, ds[|ds| - 1].id), usage[c.index][ds[|ds| - 1].index])]
  }

  /** How often each arc from an event class of cs to one of ds was used. */
  function Usage(cs: seq<EventClass>, ds: seq<EventClass>, usage: seq<seq<int>>): seq<(string, int)>
    requires UsageIndexed(cs, ds, usage)
  {
    if |cs| == 0 then []
    else
      UsagePrefix(cs, ds, usage, |cs| - 1);
      Usage(cs[..|cs| - 1], ds, usage) + UsageRow(cs[|cs| - 1], ds, usage)
  }

  lemma UsagePrefix(cs: seq<EventClass>, ds: seq<EventClass>, usage: seq<seq<int>>, n: int)
    requires UsageIndexed(cs, ds, usage) && 0 <= n <= |cs|
    ensures UsageIndexed(cs[..n], ds, usage)
  {
    assert forall x :: 0 <= x < n ==> cs[..n][x] == cs[x];
  }

  function OutEntries(acts: seq<Activity>): seq<(string, int)>
  {
    if |acts| == 0 then []
    else OutEntries(acts[..|acts| - 1]) + [(acts[|acts| - 1].name, acts[|acts| - 1].outEdges)]
  }

  function InEntries(acts: seq<Activity>): seq<(string, int)>
  {
    if |acts| == 0 then []
    else InEntries(acts[..|acts| - 1]) + [(acts[|acts| - 1].name, acts[|acts| - 1].inEdges)]
  }

  function DegreeEntries(acts: seq<Activity>): seq<(string, int)>
  {
    if |acts| == 0 then []
    else DegreeEntries(acts[..|acts| - 1])
         + [(acts[|acts| - 1].name, acts[|acts| - 1].outEdges + acts[|acts| - 1].inEdges)]
  }

  /** The network degree as the activity loop raises it, starting from 0. */
  function NetworkDegree(acts: seq<Activity>): int
  {
    if |acts| == 0 then 0
    else
      var rest := NetworkDegree(acts[..|acts| - 1]);
      var last := acts[|acts| - 1];
      if last.outEdges + last.inEdges > rest then last.outEdges + last.inEdges else rest
  }

  /** The node counts getGraphMetrics stores. */
  function NodeCountOf(net: HeuristicsNet, names: seq<string>): map<string, int>
    requires WellIndexed(net)
  {
    PutAll(PutAll(map[], Zeros(names)), Firing(net.mapping, net.actualFiring))
  }

  /** The arc counts getGraphMetrics stores. */
  function ArcCountOf(net: HeuristicsNet, names: seq<string>): map<string, int>
    requires WellIndexed(net)
  {
    PutAll(PutAll(map[], ZeroArcs(names, names)), Usage(net.mapping, net.mapping, net.arcUsage))
  }

  function OutgoingOf(graph: NetGraph, names: seq<string>): map<string, int>
  {
    PutAll(PutAll(map[], Zeros(names)), OutEntries(graph.activities))
  }

  function IncomingOf(graph: NetGraph, names: seq<string>): map<string, int>
  {
    PutAll(PutAll(map[], Zeros(names)), InEntries(graph.activities))
  }

  function DegreeOf(graph: NetGraph, names: seq<string>): map<string, int>
  {
    PutAll(PutAll(map[], Zeros(names)), DegreeEntries(graph.activities))
  }

  /** getGraphMetrics. The graph is what convertToGraph(net) returns. */
  method GetGraphMetrics(net: HeuristicsNet, graph: NetGraph, eventNames: seq<string>)
    returns (metric: GraphMetrics)
    requires WellIndexed(net)
    ensures fresh(metric)
    ensures metric.numberOfNodes == graph.nodes && metric.numberOfEdges == graph.edges
    ensures metric.nodeCount == NodeCountOf(net, eventNames)
    ensures metric.arcCount == ArcCountOf(net, eventNames)
    ensures metric.outgoingEdges == OutgoingOf(graph, eventNames)
    ensures metric.incomingEdges == IncomingOf(graph, eventNames)
    ensures metric.nodeDegree == DegreeOf(graph, eventNames)
    ensures metric.networkDegree == NetworkDegree(graph.activities)
  {
    metric := new GraphMetrics();
    metric.SetNumberOfNodes(graph.nodes);
    metric.SetNumberOfEdges(graph.edges);
    var nodeFire, arcFire := ClearMetrics(metric, eventNames);
    nodeFire, arcFire := MinedDistributions(net, nodeFire, arcFire);
    metric.SetNodeCount(nodeFire);
    metric.SetArcCount(arcFire);
    UpdateActivities(metric, graph.activities);
    // evtNames.remove(label) in the activity loop changes only a local copy
    // of the names that nothing reads afterwards.
  }

  /** The "clear all metrics" loop of getGraphMetrics: a zero for every
      name's degrees, node count and arc to every name. */
  method ClearMetrics(metric: GraphMetrics, names: seq<string>)
    returns (nodeFire: map<string, int>, arcFire: map<string, int>)
    requires metric.outgoingEdges == map[] && metric.incomingEdges == map[]
    requires metric.nodeDegree == map[]
    modifies metric`outgoingEdges, metric`incomingEdges, metric`nodeDegree
    ensures metric.outgoingEdges == PutAll(map[], Zeros(names))
    ensures metric.incomingEdges == PutAll(map[], Zeros(names))
    ensures metric.nodeDegree == PutAll(map[], Zeros(names))
    ensures nodeFire == PutAll(map[], Zeros(names))
    ensures arcFire == PutAll(map[], ZeroArcs(names, names))
  {
    nodeFire := map[];
    arcFire := map[];
    for i := 0 to |names|
      invariant metric.outgoingEdges == PutAll(map[], Zeros(names[..i]))
      invariant metric.incomingEdges == PutAll(map[], Zeros(names[..i]))
      invariant metric.nodeDegree == PutAll(map[], Zeros(names[..i]))
      invariant nodeFire == PutAll(map[], Zeros(names[..i]))
      invariant arcFire == PutAll(map[], ZeroArcs(names[..i], names))
    {
      ZerosStep(names, i);
      metric.PutOutgoingEdges(names[i], 0);
      metric.PutIncomingEdges(names[i], 0);
      metric.PutNodeDegree(names[i], 0);
      nodeFire := nodeFire[names[i] := 0];
      arcFire := ClearRow(arcFire, names, i);
      ZeroArcsStep(names, names, i);
    }
    assert names[..|names|] == names;
  }

  /** The inner loop of "clear all metrics": a zero for every arc from names[i]. */
  method ClearRow(arcFire: map<string, int>, names: seq<string>, i: int) returns (r: map<string, int>)
    requires 0 <= i < |names|
    ensures r == PutAll(arcFire, ZeroRow(names[i], names))
  {
    r := arcFire;
    for j := 0 to |names|
      invariant r == PutAll(arcFire, ZeroRow(names[i], names[..j]))
    {
      ZeroRowStep(arcFire, names[i], names, j);
      r := r[Arc(names[i], names[j]) := 0];
    }
    assert names[..|names|] == names;
  }

  /** The "node and arc distributions" loop of getGraphMetrics. */
  method MinedDistributions(net: HeuristicsNet, zeroNodes: map<string, int>, zeroArcs: map<string, int>)
    returns (nodeFire: map<string, int>, arcFire: map<string, int>)
    requires WellIndexed(net)
    ensures nodeFire == PutAll(zeroNodes, Firing(net.mapping, net.actualFiring))
    ensures arcFire == PutAll(zeroArcs, Usage(net.mapping, net.mapping, net.arcUsage))
  {
    nodeFire, arcFire := zeroNodes, zeroArcs;
    var cs := net.mapping;
    for i := 0 to |cs|
      invariant MinedState(net, zeroNodes, zeroArcs, i, nodeFire, arcFire)
    {
      var row := UsageOfRow(net, arcFire, i);
      MinedStep(net, zeroNodes, zeroArcs, i, nodeFire, arcFire);
      nodeFire := nodeFire[cs[i].id := net.actualFiring[cs[i].index]];
      arcFire := row;
    }
    assert cs[..|cs|] == cs;
  }

  /** The distributions after the loop has visited the first i event classes. */
  ghost predicate MinedState(net: HeuristicsNet, zeroNodes: map<string, int>, zeroArcs: map<string, int>,
                             i: int, nodeFire: map<string, int>, arcFire: map<string, int>)
    requires WellIndexed(net) && 0 <= i <= |net.mapping|
  {
    && nodeFire == PutAll(zeroNodes, Firing(net.mapping[..i], net.actualFiring))
    && arcFire == PutAll(zeroArcs, Usage(net.mapping[..i], net.mapping, net.arcUsage))
  }

  lemma MinedStep(net: HeuristicsNet, zeroNodes: map<string, int>, zeroArcs: map<string, int>,
                  i: int, nodeFire: map<string, int>, arcFire: map<string, int>)
    requires WellIndexed(net) && 0 <= i < |net.mapping|
    requires MinedState(net, zeroNodes, zeroArcs, i, nodeFire, arcFire)
    ensures var c := net.mapping[i];
      MinedState(net, zeroNodes, zeroArcs, i + 1, nodeFire[c.id := net.actualFiring[c.index]],
                 PutAll(arcFire, UsageRow(c, net.mapping, net.arcUsage)))
  {
    FiringStep(zeroNodes, net.mapping, net.actualFiring, i, net);
    UsageStep(zeroArcs, net.mapping, i, net);
  }

  /** The inner loop of the distributions: the usage of every arc from mapping[i]. */
  method UsageOfRow(net: HeuristicsNet, arcFire: map<string, int>, i: int) returns (r: map<string, int>)
    requires WellIndexed(net) && 0 <= i < |net.mapping|
    ensures r == PutAll(arcFire, UsageRow(net.mapping[i], net.mapping, net.arcUsage))
  {
    var cs := net.mapping;
    r := arcFire;
    for j := 0 to |cs|
      invariant r == PutAll(arcFire, UsageRow(cs[i], cs[..j], net.arcUsage))
    {
      UsageRowStep(arcFire, cs, i, j, net);
      r := r[Arc(cs[i].id, cs[j].id) := net.arcUsage[cs[i].index][cs[j].index]];
    }
    assert cs[..|cs|] == cs;
  }

  /** The "update activity information" loop of getGraphMetrics. */
  method UpdateActivities(metric: GraphMetrics, acts: seq<Activity>)
    requires metric.networkDegree == 0
    modifies metric`outgoingEdges, metric`incomingEdges, metric`nodeDegree, metric`networkDegree
    ensures metric.outgoingEdges == PutAll(old(metric.outgoingEdges), OutEntries(acts))
    ensures metric.incomingEdges == PutAll(old(metric.incomingEdges), InEntries(acts))
    ensures metric.nodeDegree == PutAll(old(metric.nodeDegree), DegreeEntries(acts))
    ensures metric.networkDegree == NetworkDegree(acts)
  {
    ghost var out0, in0, degree0 := metric.outgoingEdges, metric.incomingEdges, metric.nodeDegree;
    for i := 0 to |acts|
      invariant ActivitiesState(out0, in0, degree0, acts[..i], metric.outgoingEdges,
                                metric.incomingEdges, metric.nodeDegree, metric.networkDegree)
    {
      var outEdges := acts[i].outEdges;
      var inEdges := acts[i].inEdges;
      ActivitiesStep(out0, in0, degree0, acts, i, metric.outgoingEdges,
                     metric.incomingEdges, metric.nodeDegree, metric.networkDegree);
      metric.PutOutgoingEdges(acts[i].name, outEdges);
      metric.PutIncomingEdges(acts[i].name, inEdges);
      metric.PutNodeDegree(acts[i].name, outEdges + inEdges);
      if outEdges + inEdges > metric.networkDegree {
        metric.SetNetworkDegree(outEdges + inEdges);
      }
    }
    assert acts[..|acts|] == acts;
  }

  /** The metrics after the activity loop has visited `done`. */
  ghost predicate ActivitiesState(out0: map<string, int>, in0: map<string, int>, degree0: map<string, int>,
                                  done: seq<Activity>, outgoing: map<string, int>,
                                  incoming: map<string, int>, degree: map<string, int>, networkDegree: int)
  {
    && outgoing == PutAll(out0, OutEntries(done))
    && incoming == PutAll(in0, InEntries(done))
    && degree == PutAll(degree0, DegreeEntries(done))
    && networkDegree == NetworkDegree(done)
  }

  lemma ActivitiesStep(out0: map<string, int>, in0: map<string, int>, degree0: map<string, int>,
                       acts: seq<Activity>, i: int, outgoing: map<string, int>,
                       incoming: map<string, int>, degree: map<string, int>, networkDegree: int)
    requires 0 <= i < |acts|
    requires ActivitiesState(out0, in0, degree0, acts[..i], outgoing, incoming, degree, networkDegree)
    ensures var a := acts[i];
      ActivitiesState(out0, in0, degree0, acts[..i + 1], outgoing[a.name := a.outEdges],
                      incoming[a.name := a.inEdges], degree[a.name := a.outEdges + a.inEdges],
                      if a.outEdges + a.inEdges > networkDegree then a.outEdges + a.inEdges
                      else networkDegree)
  {
    OutStep(out0, acts, i);
    InStep(in0, acts, i);
    DegreeStep(degree0, acts, i);
    NetworkDegreeStep(acts, i);
  }

  // Unfolding steps for the loops of getGraphMetrics.

  lemma PutAllSnoc(m: map<string, int>, kvs: seq<(string, int)>, kv: (string, int))
    ensures PutAll(m, kvs + [kv]) == PutAll(m, kvs)[kv.0 := kv.1]
  {
    assert (kvs + [kv])[..|kvs|] == kvs;
  }

  lemma {:induction false} PutAllConcat(m: map<string, int>, a: seq<(string, int)>, b: seq<(string, int)>)
    ensures PutAll(m, a + b) == PutAll(PutAll(m, a), b)
    decreases |b|
  {
    if |b| == 0 {
      assert a + b == a;
    } else {
      var b' := b[..|b| - 1];
      assert a + b == (a + b') + [b[|b| - 1]];
      PutAllSnoc(m, a + b', b[|b| - 1]);
      PutAllConcat(m, a, b');
      PutAllSnoc(PutAll(m, a), b', b[|b| - 1]);
      assert b == b' + [b[|b| - 1]];
    }
  }

  lemma ZerosStep(names: seq<string>, i: int)
    requires 0 <= i < |names|
    ensures PutAll(map[], Zeros(names[..i + 1])) == PutAll(map[], Zeros(names[..i]))[names[i] := 0]
  {
    assert names[..i + 1][..i] == names[..i];
    PutAllSnoc(map[], Zeros(names[..i]), (names[i], 0));
  }

  lemma ZeroRowStep(m: map<string, int>, a: string, tos: seq<string>, j: int)
    requires 0 <= j < |tos|
    ensures PutAll(m, ZeroRow(a, tos[..j + 1])) == PutAll(m, ZeroRow(a, tos[..j]))[Arc(a, tos[j]) := 0]
  {
    assert tos[..j + 1][..j] == tos[..j];
    PutAllSnoc(m, ZeroRow(a, tos[..j]), (Arc(a, tos[j]), 0));
  }

  lemma ZeroArcsStep(froms: seq<string>, tos: seq<string>, i: int)
    requires 0 <= i < |froms|
    ensures PutAll(PutAll(map[], ZeroArcs(froms[..i], tos)), ZeroRow(froms[i], tos))
            == PutAll(map[], ZeroArcs(froms[..i + 1], tos))
  {
    assert froms[..i + 1][..i] == froms[..i];
    PutAllConcat(map[], ZeroArcs(froms[..i], tos), ZeroRow(froms[i], tos));
  }

  lemma FiringStep(m: map<string, int>, cs: seq<EventClass>, firing: seq<int>, i: int, net: HeuristicsNet)
    requires WellIndexed(net) && cs == net.mapping && firing == net.actualFiring
    requires 0 <= i < |cs|
    ensures PutAll(m, Firing(cs[..i + 1], firing))
            == PutAll(m, Firing(cs[..i], firing))[cs[i].id := firing[cs[i].index]]
  {
    assert cs[..i + 1][..i] == cs[..i];
    PutAllSnoc(m, Firing(cs[..i], firing), (cs[i].id, firing[cs[i].index]));
  }

  lemma UsageRowStep(m: map<string, int>, cs: seq<EventClass>, i: int, j: int, net: HeuristicsNet)
    requires WellIndexed(net) && cs == net.mapping
    requires 0 <= i < |cs| && 0 <= j < |cs|
    ensures PutAll(m, UsageRow(cs[i], cs[..j + 1], net.arcUsage))
            == PutAll(m, UsageRow(cs[i], cs[..j], net.arcUsage))
                 [Arc(cs[i].id, cs[j].id) := net.arcUsage[cs[i].index][cs[j].index]]
  {
    assert cs[..j + 1][..j] == cs[..j];
    PutAllSnoc(m, UsageRow(cs[i], cs[..j], net.arcUsage),
               (Arc(cs[i].id, cs[j].id), net.arcUsage[cs[i].index][cs[j].index]));
  }

  lemma UsageStep(m: map<string, int>, cs: seq<EventClass>, i: int, net: HeuristicsNet)
    requires WellIndexed(net) && cs == net.mapping
    requires 0 <= i < |cs|
    ensures PutAll(PutAll(m, Usage(cs[..i], cs, net.arcUsage)), UsageRow(cs[i], cs, net.arcUsage))
            == PutAll(m, Usage(cs[..i + 1], cs, net.arcUsage))
  {
    assert cs[..i + 1][..i] == cs[..i];
    PutAllConcat(m, Usage(cs[..i], cs, net.arcUsage), UsageRow(cs[i], cs, net.arcUsage));
  }

  lemma OutStep(m: map<string, int>, acts: seq<Activity>, i: int)
    requires 0 <= i < |acts|
    ensures PutAll(m, OutEntries(acts[..i + 1]))
            == PutAll(m, OutEntries(acts[..i]))[acts[i].name := acts[i].outEdges]
  {
    assert acts[..i + 1][..i] == acts[..i];
    PutAllSnoc(m, OutEntries(acts[..i]), (acts[i].name, acts[i].outEdges));
  }

  lemma InStep(m: map<string, int>, acts: seq<Activity>, i: int)
    requires 0 <= i < |acts|
    ensures PutAll(m, InEntries(acts[..i + 1]))
            == PutAll(m, InEntries(acts[..i]))[acts[i].name := acts[i].inEdges]
  {
    assert acts[..i + 1][..i] == acts[..i];
    PutAllSnoc(m, InEntries(acts[..i]), (acts[i].name, acts[i].inEdges));
  }

  lemma DegreeStep(m: map<string, int>, acts: seq<Activity>, i: int)
    requires 0 <= i < |acts|
    ensures PutAll(m, DegreeEntries(acts[..i + 1]))
            == PutAll(m, DegreeEntries(acts[..i]))[acts[i].name := acts[i].outEdges + acts[i].inEdges]
  {
    assert acts[..i + 1][..i] == acts[..i];
    PutAllSnoc(m, DegreeEntries(acts[..i]), (acts[i].name, acts[i].outEdges + acts[i].inEdges));
  }

  lemma NetworkDegreeStep(acts: seq<Activity>, i: int)
    requires 0 <= i < |acts|
    ensures NetworkDegree(acts[..i + 1])
            == if acts[i].outEdges + acts[i].inEdges > NetworkDegree(acts[..i])
               then acts[i].outEdges + acts[i].inEdges else NetworkDegree(acts[..i])
  {
    assert acts[..i + 1][..i] == acts[..i];
  }

  // Properties of the metrics getGraphMetrics stores.

  /** The network degree is the largest in- plus out-degree of an activity,
      or 0 for a graph without activities. */
  lemma {:induction false} NetworkDegreeIsMax(acts: seq<Activity>)
    ensures NetworkDegree(acts) >= 0
    ensures forall i :: 0 <= i < |acts| ==> acts[i].inEdges + acts[i].outEdges <= NetworkDegree(acts)
    ensures |acts| == 0 ==> NetworkDegree(acts) == 0
    ensures |acts| > 0 ==> exists i :: 0 <= i < |acts| && NetworkDegree(acts) == acts[i].inEdges + acts[i].outEdges
    decreases |acts|
  {
    if |acts| > 0 {
      var rest := acts[..|acts| - 1];
      NetworkDegreeIsMax(rest);
      assert forall i :: 0 <= i < |rest| ==> rest[i] == acts[i];
      var n := |acts| - 1;
      if NetworkDegree(acts) == acts[n].inEdges + acts[n].outEdges {
      } else if |rest| > 0 {
        var i :| 0 <= i < |rest| && NetworkDegree(rest) == rest[i].inEdges + rest[i].outEdges;
        assert NetworkDegree(acts) == acts[i].inEdges + acts[i].outEdges;
      }
    }
  }

  /** A key already present stays present after more puts. */
  lemma {:induction false} PutAllKeeps(m: map<string, int>, kvs: seq<(string, int)>, k: string)
    requires k in m
    ensures k in PutAll(m, kvs)
    decreases |kvs|
  {
    if |kvs| > 0 {
      PutAllKeeps(m, kvs[..|kvs| - 1], k);
    }
  }

  /** The value put last for a key is the value the map holds. */
  lemma {:induction false} PutAllLast(m: map<string, int>, kvs: seq<(string, int)>, i: int)
    requires 0 <= i < |kvs|
    requires forall j :: i < j < |kvs| ==> kvs[j].0 != kvs[i].0
    ensures kvs[i].0 in PutAll(m, kvs) && PutAll(m, kvs)[kvs[i].0] == kvs[i].1
    decreases |kvs|
  {
    if i < |kvs| - 1 {
      var p := kvs[..|kvs| - 1];
      assert forall j :: i < j < |p| ==> p[j] == kvs[j];
      PutAllLast(m, p, i);
    }
  }

  /** A key never put keeps its old presence and value. */
  lemma {:induction false} PutAllAbsent(m: map<string, int>, kvs: seq<(string, int)>, k: string)
    requires forall j :: 0 <= j < |kvs| ==> kvs[j].0 != k
    ensures (k in PutAll(m, kvs)) == (k in m)
    ensures k in m ==> PutAll(m, kvs)[k] == m[k]
    decreases |kvs|
  {
    if |kvs| > 0 {
      var p := kvs[..|kvs| - 1];
      assert forall j :: 0 <= j < |p| ==> p[j] == kvs[j];
      PutAllAbsent(m, p, k);
    }
  }

  /** Every value of the map is 0. */
  predicate AllZero(m: map<string, int>)
  {
    forall k :: k in m ==> m[k] == 0
  }

  lemma {:induction false} ZerosAreZero(names: seq<string>)
    ensures AllZero(PutAll(map[], Zeros(names)))
    decreases |names|
  {
    if |names| > 0 {
      ZerosAreZero(names[..|names| - 1]);
    }
  }

  lemma {:induction false} ZerosHave(names: seq<string>, i: int)
    requires 0 <= i < |names|
    ensures names[i] in PutAll(map[], Zeros(names))
    decreases |names|
  {
    if i < |names| - 1 {
      var p := names[..|names| - 1];
      assert p[i] == names[i];
      ZerosHave(p, i);
    }
  }

  lemma {:induction false} ZeroRowHas(m: map<string, int>, a: string, tos: seq<string>, j: int)
    requires 0 <= j < |tos|
    ensures Arc(a, tos[j]) in PutAll(m, ZeroRow(a, tos))
    decreases |tos|
  {
    if j < |tos| - 1 {
      var p := tos[..|tos| - 1];
      assert p[j] == tos[j];
      ZeroRowHas(m, a, p, j);
    }
  }

  lemma {:induction false} ZeroArcsHave(froms: seq<string>, tos: seq<string>, i: int, j: int)
    requires 0 <= i < |froms| && 0 <= j < |tos|
    ensures Arc(froms[i], tos[j]) in PutAll(map[], ZeroArcs(froms, tos))
    decreases |froms|
  {
    var n := |froms| - 1;
    var p := froms[..n];
    PutAllConcat(map[], ZeroArcs(p, tos), ZeroRow(froms[n], tos));
    if i == n {
      ZeroRowHas(PutAll(map[], ZeroArcs(p, tos)), froms[n], tos, j);
    } else {
      assert p[i] == froms[i];
      ZeroArcsHave(p, tos, i, j);
      PutAllKeeps(PutAll(map[], ZeroArcs(p, tos)), ZeroRow(froms[n], tos), Arc(froms[i], tos[j]));
    }
  }

  /** Every vocabulary name has a node-count, out-degree, in-degree and
      degree entry, and every ordered pair of names an arc entry. */
  lemma ZeroPadded(net: HeuristicsNet, graph: NetGraph, names: seq<string>, i: int, j: int)
    requires WellIndexed(net)
    requires 0 <= i < |names| && 0 <= j < |names|
    ensures names[i] in NodeCountOf(net, names)
    ensures names[i] in OutgoingOf(graph, names) && names[i] in IncomingOf(graph, names)
    ensures names[i] in DegreeOf(graph, names)
    ensures Arc(names[i], names[j]) in ArcCountOf(net, names)
  {
    ZerosHave(names, i);
    var z := PutAll(map[], Zeros(names));
    PutAllKeeps(z, Firing(net.mapping, net.actualFiring), names[i]);
    PutAllKeeps(z, OutEntries(graph.activities), names[i]);
    PutAllKeeps(z, InEntries(graph.activities), names[i]);
    PutAllKeeps(z, DegreeEntries(graph.activities), names[i]);
    ZeroArcsHave(names, names, i, j);
    PutAllKeeps(PutAll(map[], ZeroArcs(names, names)), Usage(net.mapping, net.mapping, net.arcUsage),
                Arc(names[i], names[j]));
  }

  /** The entries the activity loop puts, one per activity in graph order. */
  lemma {:induction false} ActivityEntries(acts: seq<Activity>)
    ensures |OutEntries(acts)| == |InEntries(acts)| == |DegreeEntries(acts)| == |acts|
    ensures forall j :: 0 <= j < |acts| ==> OutEntries(acts)[j] == (acts[j].name, acts[j].outEdges)
    ensures forall j :: 0 <= j < |acts| ==> InEntries(acts)[j] == (acts[j].name, acts[j].inEdges)
    ensures forall j :: 0 <= j < |acts| ==>
      DegreeEntries(acts)[j] == (acts[j].name, acts[j].outEdges + acts[j].inEdges)
    decreases |acts|
  {
    if |acts| > 0 {
      var p := acts[..|acts| - 1];
      ActivityEntries(p);
      assert forall j :: 0 <= j < |p| ==> p[j] == acts[j];
    }
  }

  /** A vocabulary name that labels no graph activity keeps degree values of 0. */
  lemma AbsentActivity(graph: NetGraph, names: seq<string>, n: string)
    requires n in names
    requires forall i :: 0 <= i < |graph.activities| ==> graph.activities[i].name != n
    ensures n in OutgoingOf(graph, names) && OutgoingOf(graph, names)[n] == 0
    ensures n in IncomingOf(graph, names) && IncomingOf(graph, names)[n] == 0
    ensures n in DegreeOf(graph, names) && DegreeOf(graph, names)[n] == 0
  {
    var acts := graph.activities;
    var i :| 0 <= i < |names| && names[i] == n;
    ZerosHave(names, i);
    ZerosAreZero(names);
    ActivityEntries(acts);
    var z := PutAll(map[], Zeros(names));
    PutAllAbsent(z, OutEntries(acts), n);
    PutAllAbsent(z, InEntries(acts), n);
    PutAllAbsent(z, DegreeEntries(acts), n);
  }

  /** The activity loop puts the degrees of a graph activity whose label no
      later activity repeats, and its degree is in + out. */
  lemma ActivityValues(graph: NetGraph, names: seq<string>, i: int)
    requires 0 <= i < |graph.activities|
    requires forall j :: i < j < |graph.activities| ==>
      graph.activities[j].name != graph.activities[i].name
    ensures var a := graph.activities[i];
      && a.name in OutgoingOf(graph, names) && OutgoingOf(graph, names)[a.name] == a.outEdges
      && a.name in IncomingOf(graph, names) && IncomingOf(graph, names)[a.name] == a.inEdges
      && a.name in DegreeOf(graph, names) && DegreeOf(graph, names)[a.name] == a.outEdges + a.inEdges
  {
    var acts := graph.activities;
    var z := PutAll(map[], Zeros(names));
    ActivityEntries(acts);
    PutAllLast(z, OutEntries(acts), i);
    PutAllLast(z, InEntries(acts), i);
    PutAllLast(z, DegreeEntries(acts), i);
  }

  /** Degree and in- plus out-degree agree on every key. */
  predicate DegreesAdd(degree: map<string, int>, outgoing: map<string, int>, incoming: map<string, int>)
  {
    && degree.Keys == outgoing.Keys == incoming.Keys
    && forall k :: k in degree ==> degree[k] == outgoing[k] + incoming[k]
  }

  lemma {:induction false} DegreesAddAfter(z: map<string, int>, acts: seq<Activity>)
    requires AllZero(z)
    ensures DegreesAdd(PutAll(z, DegreeEntries(acts)), PutAll(z, OutEntries(acts)), PutAll(z, InEntries(acts)))
    decreases |acts|
  {
    if |acts| > 0 {
      var i := |acts| - 1;
      DegreesAddAfter(z, acts[..i]);
      OutStep(z, acts, i);
      InStep(z, acts, i);
      DegreeStep(z, acts, i);
      assert acts[..i + 1] == acts;
    }
  }

  /** For every key of the degree map, degree = in + out: the zero padding
      adds up, and so does every activity's update. */
  lemma DegreeIsInPlusOut(graph: NetGraph, names: seq<string>)
    ensures DegreesAdd(DegreeOf(graph, names), OutgoingOf(graph, names), IncomingOf(graph, names))
  {
    ZerosAreZero(names);
    DegreesAddAfter(PutAll(map[], Zeros(names)), graph.activities);
  }

  /** No two event classes of the mapping share an id. */
  predicate DistinctIds(cs: seq<EventClass>)
  {
    forall i, j :: 0 <= i < j < |cs| ==> cs[i].id != cs[j].id
  }

  /** No id contains '-', so the arc keys a->b cannot collide. */
  predicate DashFree(cs: seq<EventClass>)
  {
    forall i :: 0 <= i < |cs| ==> '-' !in cs[i].id
  }

  /** With no '-' in the first name, an arc key determines both names. */
  lemma ArcInjective(a: string, b: string, c: string, d: string)
    requires '-' !in a && '-' !in c
    requires Arc(a, b) == Arc(c, d)
    ensures a == c && b == d
  {
    var s := Arc(a, b);
    assert s[|a|] == '-' && s[..|a|] == a;
    assert s[|c|] == '-' && s[..|c|] == c;
    var r := IndexOf(s, '-');
    assert b == s[|a| + 2..];
    assert d == s[|c| + 2..];
  }

  lemma {:induction false} FiringEntries(cs: seq<EventClass>, firing: seq<int>)
    requires forall i :: 0 <= i < |cs| ==> 0 <= cs[i].index < |firing|
    ensures |Firing(cs, firing)| == |cs|
    ensures forall i :: 0 <= i < |cs| ==> Firing(cs, firing)[i] == (cs[i].id, firing[cs[i].index])
    decreases |cs|
  {
    if |cs| > 0 {
      var p := cs[..|cs| - 1];
      assert forall i :: 0 <= i < |p| ==> p[i] == cs[i];
      FiringEntries(p, firing);
    }
  }

  lemma {:induction false} UsageRowEntries(c: EventClass, ds: seq<EventClass>, usage: seq<seq<int>>)
    requires 0 <= c.index < |usage|
    requires forall j :: 0 <= j < |ds| ==> 0 <= ds[j].index < |usage[c.index]|
    ensures |UsageRow(c, ds, usage)| == |ds|
    ensures forall j :: 0 <= j < |ds| ==>
      UsageRow(c, ds, usage)[j] == (Arc(c.id, ds[j].id), usage[c.index][ds[j].index])
    decreases |ds|
  {
    if |ds| > 0 {
      var p := ds[..|ds| - 1];
      assert forall j :: 0 <= j < |p| ==> p[j] == ds[j];
      UsageRowEntries(c, p, usage);
    }
  }

  /** The row from c puts the usage of c->ds[j] under a key no other entry of the row uses. */
  lemma RowValue(m: map<string, int>, c: EventClass, ds: seq<EventClass>, usage: seq<seq<int>>, j: int)
    requires 0 <= c.index < |usage|
    requires forall j :: 0 <= j < |ds| ==> 0 <= ds[j].index < |usage[c.index]|
    requires 0 <= j < |ds|
    requires forall l :: 0 <= l < |ds| && l != j ==> Arc(c.id, ds[l].id) != Arc(c.id, ds[j].id)
    ensures Arc(c.id, ds[j].id) in PutAll(m, UsageRow(c, ds, usage))
    ensures PutAll(m, UsageRow(c, ds, usage))[Arc(c.id, ds[j].id)] == usage[c.index][ds[j].index]
  {
    UsageRowEntries(c, ds, usage);
    PutAllLast(m, UsageRow(c, ds, usage), j);
  }

  /** The row from c leaves a key it does not put as it was. */
  lemma RowAbsent(m: map<string, int>, c: EventClass, ds: seq<EventClass>, usage: seq<seq<int>>, k: string)
    requires 0 <= c.index < |usage|
    requires forall j :: 0 <= j < |ds| ==> 0 <= ds[j].index < |usage[c.index]|
    requires forall l :: 0 <= l < |ds| ==> Arc(c.id, ds[l].id) != k
    ensures (k in PutAll(m, UsageRow(c, ds, usage))) == (k in m)
    ensures k in m ==> PutAll(m, UsageRow(c, ds, usage))[k] == m[k]
  {
    UsageRowEntries(c, ds, usage);
    PutAllAbsent(m, UsageRow(c, ds, usage), k);
  }

  /** The event classes a Usage table may be indexed with. */
  predicate UsageIndexed(cs: seq<EventClass>, ds: seq<EventClass>, usage: seq<seq<int>>)
  {
    && (forall i :: 0 <= i < |cs| ==> 0 <= cs[i].index < |usage|)
    && (forall i, j :: 0 <= i < |cs| && 0 <= j < |ds| ==> 0 <= ds[j].index < |usage[cs[i].index]|)
  }

  lemma PrefixIndexed(cs: seq<EventClass>, ds: seq<EventClass>, usage: seq<seq<int>>, n: int)
    requires UsageIndexed(cs, ds, usage) && DistinctIds(cs) && DistinctIds(ds) && DashFree(cs) && 0 <= n <= |cs|
    ensures UsageIndexed(cs[..n], ds, usage) && DistinctIds(cs[..n]) && DashFree(cs[..n])
  {
    assert forall x :: 0 <= x < n ==> cs[..n][x] == cs[x];
  }

  /** The value of an arc from the last event class of cs. */
  lemma UsageLastRow(m: map<string, int>, cs: seq<EventClass>, ds: seq<EventClass>,
                     usage: seq<seq<int>>, j: int)
    requires UsageIndexed(cs, ds, usage) && DistinctIds(cs) && DistinctIds(ds) && DashFree(cs)
    requires 0 < |cs| && 0 <= j < |ds|
    ensures var k := Arc(cs[|cs| - 1].id, ds[j].id);
      k in PutAll(m, Usage(cs, ds, usage))
      && PutAll(m, Usage(cs, ds, usage))[k] == usage[cs[|cs| - 1].index][ds[j].index]
  {
    var n := |cs| - 1;
    PrefixIndexed(cs, ds, usage, n);
    PutAllConcat(m, Usage(cs[..n], ds, usage), UsageRow(cs[n], ds, usage));
    forall l | 0 <= l < |ds| && l != j ensures Arc(cs[n].id, ds[l].id) != Arc(cs[n].id, ds[j].id) {
      if Arc(cs[n].id, ds[l].id) == Arc(cs[n].id, ds[j].id) {
        ArcInjective(cs[n].id, ds[l].id, cs[n].id, ds[j].id);
        if l < j { } else { }
      }
    }
    RowValue(PutAll(m, Usage(cs[..n], ds, usage)), cs[n], ds, usage, j);
  }

  /** An arc from an earlier event class keeps the value the earlier rows gave it. */
  lemma UsageEarlierRow(m: map<string, int>, cs: seq<EventClass>, ds: seq<EventClass>,
                        usage: seq<seq<int>>, i: int, j: int)
    requires UsageIndexed(cs, ds, usage) && DistinctIds(cs) && DistinctIds(ds) && DashFree(cs)
    requires 0 <= i < |cs| - 1 && 0 <= j < |ds|
    requires UsageIndexed(cs[..|cs| - 1], ds, usage)
    requires var k := Arc(cs[i].id, ds[j].id); var before := PutAll(m, Usage(cs[..|cs| - 1], ds, usage));
      k in before && before[k] == usage[cs[i].index][ds[j].index]
    ensures var k := Arc(cs[i].id, ds[j].id);
      k in PutAll(m, Usage(cs, ds, usage))
      && PutAll(m, Usage(cs, ds, usage))[k] == usage[cs[i].index][ds[j].index]
  {
    var n := |cs| - 1;
    var k := Arc(cs[i].id, ds[j].id);
    PutAllConcat(m, Usage(cs[..n], ds, usage), UsageRow(cs[n], ds, usage));
    forall l | 0 <= l < |ds| ensures Arc(cs[n].id, ds[l].id) != k {
      if Arc(cs[n].id, ds[l].id) == k {
        ArcInjective(cs[n].id, ds[l].id, cs[i].id, ds[j].id);
      }
    }
    RowAbsent(PutAll(m, Usage(cs[..n], ds, usage)), cs[n], ds, usage, k);
  }

  lemma {:induction false} UsageValue(m: map<string, int>, cs: seq<EventClass>, ds: seq<EventClass>,
                                      usage: seq<seq<int>>, i: int, j: int)
    requires UsageIndexed(cs, ds, usage) && DistinctIds(cs) && DistinctIds(ds) && DashFree(cs)
    requires 0 <= i < |cs| && 0 <= j < |ds|
    ensures var k := Arc(cs[i].id, ds[j].id);
      k in PutAll(m, Usage(cs, ds, usage)) && PutAll(m, Usage(cs, ds, usage))[k] == usage[cs[i].index][ds[j].index]
    decreases |cs|
  {
    var n := |cs| - 1;
    if i == n {
      UsageLastRow(m, cs, ds, usage, j);
    } else {
      PrefixIndexed(cs, ds, usage, n);
      UsageValue(m, cs[..n], ds, usage, i, j);
      assert cs[..n][i] == cs[i];
      UsageEarlierRow(m, cs, ds, usage, i, j);
    }
  }

  /** For every mined pair of event classes (c1, c2), the node count of c1
      is its firing count and the arc count of c1->c2 its arc usage. */
  lemma MinedValues(net: HeuristicsNet, names: seq<string>, i: int, j: int)
    requires WellIndexed(net)
    requires DistinctIds(net.mapping) && DashFree(net.mapping)
    requires 0 <= i < |net.mapping| && 0 <= j < |net.mapping|
    ensures var c1, c2 := net.mapping[i], net.mapping[j];
      && c1.id in NodeCountOf(net, names)
      && NodeCountOf(net, names)[c1.id] == net.actualFiring[c1.index]
      && Arc(c1.id, c2.id) in ArcCountOf(net, names)
      && ArcCountOf(net, names)[Arc(c1.id, c2.id)] == net.arcUsage[c1.index][c2.index]
  {
    FiringEntries(net.mapping, net.actualFiring);
    PutAllLast(PutAll(map[], Zeros(names)), Firing(net.mapping, net.actualFiring), i);
    UsageValue(PutAll(map[], ZeroArcs(names, names)), net.mapping, net.mapping, net.arcUsage, i, j);
  }
}
