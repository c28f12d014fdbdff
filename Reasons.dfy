/** ProcessDriftDetectionPlugin.calculateReasons: the metrics that differ
    between the reference and the detection window of a change point, each
    with its change formatted as text.

    Metric values are the integers that flatMetrics stores as doubles, and
    Double.toString is a parameter `fmt`. Both maps are flattened in one key
    order (Metrics.Aligned), which is what makes the value lists of the
    source line up position by position. */
module Reasons {
  import opened JavaStrings
  import opened Metrics

  const ArcMarker: string := "->"

  /** The metrics whose value changed, mapped to detection minus reference. */
  function Differences(reference: map<string, int>, detection: map<string, int>): map<string, int>
  {
    map k | k in reference && k in detection && reference[k] != detection[k] :: detection[k] - reference[k]
  }

  /** The activities whose in-degree metric changed, with the prefix removed. */
  function InDegreeNames(keys: set<string>): set<string>
  {
    set k | k in keys && Contains(k, InDegreePrefix) :: ReplaceAll(k, InDegreePrefix, "")
  }

  /** The activities whose out-degree metric (and not an in-degree one) changed. */
  function OutDegreeNames(keys: set<string>): set<string>
  {
    set k | k in keys && !Contains(k, InDegreePrefix) && Contains(k, OutDegreePrefix) :: ReplaceAll(k, OutDegreePrefix, "")
  }

  /** Metric k mentions "->" followed by one of the in-degree names or one
      of the out-degree names followed by "->". */
  predicate Adjacent(k: string, ins: set<string>, outs: set<string>)
  {
    (exists n :: n in ins && Contains(k, ArcMarker + n)) || (exists n :: n in outs && Contains(k, n + ArcMarker))
  }

  /** The text reported for a changed metric: its change, and for an arc
      also its value in the detection window. */
  function Reason(k: string, delta: int, value: int, fmt: int -> string): string
  {
    if Contains(k, ArcMarker) then fmt(delta) + " (" + fmt(value) + ")" else fmt(delta)
  }

  /** The reasons contributed by the changed metrics in `done`. */
  function ReasonsFor(done: set<string>, diffs: map<string, int>, detection: map<string, int>,
                      ins: set<string>, outs: set<string>, fmt: int -> string): map<string, string>
  {
    map k | k in done && k in diffs && k in detection && (!Contains(k, ArcMarker) || Adjacent(k, ins, outs))
      :: Reason(k, diffs[k], detection[k], fmt)
  }

  /** The reasons for a map of changed metrics. */
  function ReasonsFrom(diffs: map<string, int>, detection: map<string, int>, fmt: int -> string): map<string, string>
  {
    ReasonsFor(diffs.Keys, diffs, detection, InDegreeNames(diffs.Keys), OutDegreeNames(diffs.Keys), fmt)
  }

  /** What calculateReasons returns for two flattened windows. */
  function ReasonsOf(reference: map<string, int>, detection: map<string, int>, fmt: int -> string): map<string, string>
  {
    ReasonsFrom(Differences(reference, detection), detection, fmt)
  }

  /** Every listed metric has a value in both windows. */
  predicate Covers(metrics: seq<string>, reference: map<string, int>, detection: map<string, int>)
  {
    forall j :: 0 <= j < |metrics| ==> metrics[j] in reference && metrics[j] in detection
  }

  /** The elements of a list. */
  function Elems(s: seq<string>): set<string>
  {
    set n | n in s
  }

  /** calculateReasons, from the two flattened windows on: the metric
      names `metrics` are listed in the order both windows are flattened in
      (when that order enumerates both windows, DifferencesAligned turns the
      result into ReasonsOf(reference, detection, fmt)). */
  method CalculateReasons(metrics: seq<string>, reference: map<string, int>, detection: map<string, int>,
                          fmt: int -> string)
    returns (reasons2: map<string, string>)
    requires Covers(metrics, reference, detection)
    ensures reasons2 == ReasonsFrom(DifferencesOn(metrics, reference, detection), detection, fmt)
  {
    var referenceValues := seq(|metrics|, j requires 0 <= j < |metrics| && metrics[j] in reference => reference[metrics[j]]);
    var detectionValues := seq(|metrics|, j requires 0 <= j < |metrics| && metrics[j] in detection => detection[metrics[j]]);
    var reasons, indexMap := ChangedMetrics(metrics, reference, detection, referenceValues, detectionValues);
    var indegree, outdegree := DegreeLists(reasons);
    reasons2 := map[];
    ghost var done: set<string> := {};
    var todo := reasons.Keys;
    while todo != {}
      invariant todo !! done && todo + done == reasons.Keys
      invariant reasons2 == ReasonsFor(done, reasons, detection, Elems(indegree), Elems(outdegree), fmt)
      decreases todo
    {
      var k :| k in todo;
      reasons2 := PutReason(reasons2, k, reasons, detection, detectionValues, indexMap, indegree, outdegree, fmt, done);
      todo := todo - {k};
      done := done + {k};
    }
    assert done == reasons.Keys;
  }

  /** The body of the third loop of calculateReasons for metric k. */
  method PutReason(reasons2: map<string, string>, k: string, reasons: map<string, int>, detection: map<string, int>,
                   detectionValues: seq<int>, indexMap: map<string, int>, indegree: seq<string>, outdegree: seq<string>,
                   fmt: int -> string, ghost done: set<string>)
    returns (r: map<string, string>)
    requires k in reasons && k in detection && k in indexMap
    requires 0 <= indexMap[k] < |detectionValues| && detectionValues[indexMap[k]] == detection[k]
    requires reasons2 == ReasonsFor(done, reasons, detection, Elems(indegree), Elems(outdegree), fmt)
    ensures r == ReasonsFor(done + {k}, reasons, detection, Elems(indegree), Elems(outdegree), fmt)
  {
    ReasonsStep(done, k, reasons, detection, Elems(indegree), Elems(outdegree), fmt);
    if Contains(k, ArcMarker) {
      r := PutArcReason(reasons2, k, fmt(reasons[k]) + " (" + fmt(detectionValues[indexMap[k]]) + ")", indegree, outdegree);
    } else {
      r := reasons2[k := fmt(reasons[k])];
    }
  }

  /** Adding one changed metric to `done` adds its reason exactly when it
      is not an arc or is an adjacent one. */
  lemma ReasonsStep(done: set<string>, k: string, diffs: map<string, int>, detection: map<string, int>,
                    ins: set<string>, outs: set<string>, fmt: int -> string)
    requires k in diffs && k in detection
    ensures var before := ReasonsFor(done, diffs, detection, ins, outs, fmt);
      ReasonsFor(done + {k}, diffs, detection, ins, outs, fmt)
        == if !Contains(k, ArcMarker) || Adjacent(k, ins, outs)
           then before[k := Reason(k, diffs[k], detection[k], fmt)] else before
  {
  }

  /** The first loop of calculateReasons: the changed metrics with their
      change and their position in the value lists. */
  method ChangedMetrics(metrics: seq<string>, reference: map<string, int>, detection: map<string, int>,
                        referenceValues: seq<int>, detectionValues: seq<int>)
    returns (reasons: map<string, int>, indexMap: map<string, int>)
    requires Covers(metrics, reference, detection)
    requires |referenceValues| == |detectionValues| == |metrics|
    requires forall j :: 0 <= j < |metrics| ==> referenceValues[j] == reference[metrics[j]]
    requires forall j :: 0 <= j < |metrics| ==> detectionValues[j] == detection[metrics[j]]
    ensures reasons == DifferencesOn(metrics, reference, detection)
    ensures indexMap.Keys == reasons.Keys
    ensures forall k :: k in indexMap ==> 0 <= indexMap[k] < |metrics| && metrics[indexMap[k]] == k
  {
    reasons, indexMap := map[], map[];
    for j := 0 to |referenceValues|
      invariant reasons == DifferencesOn(metrics[..j], reference, detection)
      invariant indexMap.Keys == reasons.Keys
      invariant forall k :: k in indexMap ==> 0 <= indexMap[k] < |metrics| && metrics[indexMap[k]] == k
    {
      DifferencesStep(metrics, j, reference, detection);
      if referenceValues[j] != detectionValues[j] {
        indexMap := indexMap[metrics[j] := j];
        reasons := reasons[metrics[j] := detectionValues[j] - referenceValues[j]];
      }
    }
    assert metrics[..|metrics|] == metrics;
  }

  lemma DifferencesStep(keys: seq<string>, j: int, reference: map<string, int>, detection: map<string, int>)
    requires 0 <= j < |keys|
    ensures var k := keys[j];
      DifferencesOn(keys[..j + 1], reference, detection)
        == if k in reference && k in detection && reference[k] != detection[k]
           then DifferencesOn(keys[..j], reference, detection)[k := detection[k] - reference[k]]
           else DifferencesOn(keys[..j], reference, detection)
  {
    assert keys[..j + 1] == keys[..j] + [keys[j]];
  }

  /** When the metric order enumerates both windows, the changes found along
      it are all the changes between the windows. */
  lemma DifferencesAligned(keys: seq<string>, reference: map<string, int>, detection: map<string, int>)
    requires Aligned(keys, reference, detection)
    ensures Covers(keys, reference, detection)
    ensures DifferencesOn(keys, reference, detection) == Differences(reference, detection)
  {
  }

  /** The changed metrics among `keys`. */
  function DifferencesOn(keys: seq<string>, reference: map<string, int>, detection: map<string, int>): map<string, int>
  {
    map k | k in keys && k in reference && k in detection && reference[k] != detection[k] :: detection[k] - reference[k]
  }

  /** The second loop of calculateReasons: the names of the activities whose
      in-degree or out-degree changed. */
  method DegreeLists(reasons: map<string, int>) returns (indegree: seq<string>, outdegree: seq<string>)
    ensures Elems(indegree) == InDegreeNames(reasons.Keys)
    ensures Elems(outdegree) == OutDegreeNames(reasons.Keys)
  {
    indegree, outdegree := [], [];
    ghost var done: set<string> := {};
    var todo := reasons.Keys;
    while todo != {}
      invariant todo !! done && todo + done == reasons.Keys
      invariant Elems(indegree) == InDegreeNames(done)
      invariant Elems(outdegree) == OutDegreeNames(done)
      decreases todo
    {
      var k :| k in todo;
      DegreeNamesStep(done, k);
      if Contains(k, InDegreePrefix) {
        ElemsSnoc(indegree, ReplaceAll(k, InDegreePrefix, ""));
        indegree := indegree + [ReplaceAll(k, InDegreePrefix, "")];
      } else if Contains(k, OutDegreePrefix) {
        ElemsSnoc(outdegree, ReplaceAll(k, OutDegreePrefix, ""));
        outdegree := outdegree + [ReplaceAll(k, OutDegreePrefix, "")];
      }
      todo := todo - {k};
      done := done + {k};
    }
  }

  lemma ElemsSnoc(s: seq<string>, x: string)
    ensures Elems(s + [x]) == Elems(s) + {x}
  {
  }

  lemma DegreeNamesStep(done: set<string>, k: string)
    ensures InDegreeNames(done + {k})
      == InDegreeNames(done) + (if Contains(k, InDegreePrefix) then {ReplaceAll(k, InDegreePrefix, "")} else {})
    ensures OutDegreeNames(done + {k})
      == OutDegreeNames(done)
         + (if !Contains(k, InDegreePrefix) && Contains(k, OutDegreePrefix)
            then {ReplaceAll(k, OutDegreePrefix, "")} else {})
  {
  }

  /** The third loop's body for an arc metric: its reason is put once for
      every in-degree name following "->" in it and once for every out-degree
      name preceding "->" in it. */
  method PutArcReason(reasons2: map<string, string>, k: string, text: string,
                      indegree: seq<string>, outdegree: seq<string>)
    returns (r: map<string, string>)
    ensures r == if Adjacent(k, Elems(indegree), Elems(outdegree)) then reasons2[k := text] else reasons2
  {
    r := reasons2;
    for t := 0 to |indegree|
      invariant r == if (exists u :: 0 <= u < t && Contains(k, ArcMarker + indegree[u])) then reasons2[k := text] else reasons2
    {
      if Contains(k, ArcMarker + indegree[t]) {
        r := r[k := text];
      }
    }
    ghost var viaIn := exists u :: 0 <= u < |indegree| && Contains(k, ArcMarker + indegree[u]);
    for t := 0 to |outdegree|
      invariant r == if viaIn || (exists u :: 0 <= u < t && Contains(k, outdegree[u] + ArcMarker)) then reasons2[k := text] else reasons2
    {
      if Contains(k, outdegree[t] + ArcMarker) {
        r := r[k := text];
      }
    }
    AdjacentIndexed(k, indegree, outdegree);
  }

  lemma AdjacentIndexed(k: string, indegree: seq<string>, outdegree: seq<string>)
    ensures Adjacent(k, Elems(indegree), Elems(outdegree))
        <==> (exists u :: 0 <= u < |indegree| && Contains(k, ArcMarker + indegree[u]))
             || (exists u :: 0 <= u < |outdegree| && Contains(k, outdegree[u] + ArcMarker))
  {
    if exists n :: n in Elems(indegree) && Contains(k, ArcMarker + n) {
      var n :| n in Elems(indegree) && Contains(k, ArcMarker + n);
      var u :| 0 <= u < |indegree| && indegree[u] == n;
    }
    if exists n :: n in Elems(outdegree) && Contains(k, n + ArcMarker) {
      var n :| n in Elems(outdegree) && Contains(k, n + ArcMarker);
      var u :| 0 <= u < |outdegree| && outdegree[u] == n;
    }
  }

  // What the reported reasons mean.

  /** Only metrics whose value differs between the windows are reported. */
  lemma ReportedOnlyIfChanged(reference: map<string, int>, detection: map<string, int>, fmt: int -> string, k: string)
    requires k in ReasonsOf(reference, detection, fmt)
    ensures k in reference && k in detection && reference[k] != detection[k]
  {
  }

  /** Identical windows give no reasons. */
  lemma SameWindowsNoReasons(m: map<string, int>, fmt: int -> string)
    ensures ReasonsOf(m, m, fmt) == map[]
  {
    assert Differences(m, m) == map[];
  }

  /** A metric that is not an arc (the counts, the network degree and the
      degrees of the activities) is reported exactly when it changed, with
      its change as the reason. */
  lemma NonArcReason(reference: map<string, int>, detection: map<string, int>, fmt: int -> string, k: string)
    requires k in reference && k in detection && !Contains(k, ArcMarker)
    ensures var r := ReasonsOf(reference, detection, fmt);
      && (k in r <==> reference[k] != detection[k])
      && (k in r ==> r[k] == fmt(detection[k] - reference[k]))
  {
  }

  /** The reason reported for a changed arc: its change and its value in
      the detection window. */
  function ArcText(reference: map<string, int>, detection: map<string, int>, fmt: int -> string, k: string): string
    requires k in reference && k in detection
  {
    fmt(detection[k] - reference[k]) + " (" + fmt(detection[k]) + ")"
  }

  /** A changed arc a->b is reported when the in-degree of its target b
      changed as well. */
  lemma ArcReasonByTarget(reference: map<string, int>, detection: map<string, int>, fmt: int -> string,
                          a: string, b: string)
    requires !Contains(b, InDegreePrefix)
    requires var arc := a + ArcMarker + b;
      arc in reference && arc in detection && reference[arc] != detection[arc]
    requires var deg := InDegreePrefix + b;
      deg in reference && deg in detection && reference[deg] != detection[deg]
    ensures var arc := a + ArcMarker + b;
      var r := ReasonsOf(reference, detection, fmt);
      arc in r && r[arc] == ArcText(reference, detection, fmt, arc)
  {
    var arc := a + ArcMarker + b;
    var deg := InDegreePrefix + b;
    var diffs := Differences(reference, detection);
    ContainsSuffix(a, ArcMarker, b);
    ContainsSuffix(a, ArcMarker + b, "");
    assert a + (ArcMarker + b) + "" == arc;
    ContainsSuffix("", InDegreePrefix, b);
    assert "" + InDegreePrefix + b == deg;
    StripPrefix(InDegreePrefix, b);
    assert b in InDegreeNames(diffs.Keys);
    assert Adjacent(arc, InDegreeNames(diffs.Keys), OutDegreeNames(diffs.Keys));
  }

  /** A changed arc a->b is reported when the out-degree of its source a
      changed as well. */
  lemma ArcReasonBySource(reference: map<string, int>, detection: map<string, int>, fmt: int -> string,
                          a: string, b: string)
    requires !Contains(a, InDegreePrefix) && !Contains(a, OutDegreePrefix)
    requires var arc := a + ArcMarker + b;
      arc in reference && arc in detection && reference[arc] != detection[arc]
    requires var deg := OutDegreePrefix + a;
      deg in reference && deg in detection && reference[deg] != detection[deg]
    ensures var arc := a + ArcMarker + b;
      var r := ReasonsOf(reference, detection, fmt);
      arc in r && r[arc] == ArcText(reference, detection, fmt, arc)
  {
    var arc := a + ArcMarker + b;
    var deg := OutDegreePrefix + a;
    var diffs := Differences(reference, detection);
    ContainsSuffix(a, ArcMarker, b);
    ContainsSuffix("", a + ArcMarker, b);
    assert "" + (a + ArcMarker) + b == arc;
    ContainsSuffix("", OutDegreePrefix, a);
    assert "" + OutDegreePrefix + a == deg;
    ContainsAfter(OutDegreePrefix, a, InDegreePrefix);
    StripPrefix(OutDegreePrefix, a);
    assert a in OutDegreeNames(diffs.Keys);
    assert Adjacent(arc, InDegreeNames(diffs.Keys), OutDegreeNames(diffs.Keys));
  }

  /** Conversely, a reported arc metric changed and names, after "->", an
      activity whose in-degree metric changed or, before "->", one whose
      out-degree metric changed. */
  lemma ArcReportedOnlyIfAdjacent(reference: map<string, int>, detection: map<string, int>, fmt: int -> string,
                                  k: string)
    requires k in ReasonsOf(reference, detection, fmt) && Contains(k, ArcMarker)
    ensures k in reference && k in detection && reference[k] != detection[k]
    ensures ReasonsOf(reference, detection, fmt)[k] == ArcText(reference, detection, fmt, k)
    ensures exists m :: (m in Differences(reference, detection)
      && ((Contains(m, InDegreePrefix) && Contains(k, ArcMarker + ReplaceAll(m, InDegreePrefix, "")))
          || (!Contains(m, InDegreePrefix) && Contains(m, OutDegreePrefix)
              && Contains(k, ReplaceAll(m, OutDegreePrefix, "") + ArcMarker))))
  {
    var diffs := Differences(reference, detection);
    var ins, outs := InDegreeNames(diffs.Keys), OutDegreeNames(diffs.Keys);
    assert Adjacent(k, ins, outs);
    if exists n :: n in ins && Contains(k, ArcMarker + n) {
      var n :| n in ins && Contains(k, ArcMarker + n);
      var m :| m in diffs.Keys && Contains(m, InDegreePrefix) && ReplaceAll(m, InDegreePrefix, "") == n;
    } else {
      var n :| n in outs && Contains(k, n + ArcMarker);
      var m :| m in diffs.Keys && !Contains(m, InDegreePrefix) && Contains(m, OutDegreePrefix)
               && ReplaceAll(m, OutDegreePrefix, "") == n;
    }
  }
}
