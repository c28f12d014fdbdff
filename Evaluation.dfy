/** EvaluationCalculator: the change points a synthetic log was built with,
    read off the types of its traces, and the precision, recall and average
    distance of a list of detected change points against them. */
module Evaluation {
  import opened Wrappers
  import opened XLogUtils
  import WindowSearch

  const IntMax: int := 2147483647

  /** Every trace carries a concept:name, as getTraceType needs. */
  predicate Named(log: Log)
  {
    forall k :: 0 <= k < |log| ==> log[k].name.Some?
  }

  /** The type of every trace of the log. */
  function TypesOf(log: Log): (r: seq<string>)
    requires Named(log)
    ensures |r| == |log|
  {
    seq(|log|, k requires 0 <= k < |log| && log[k].name.Some? => TraceType(log[k].name.value))
  }

  // The ground truth, as the constructor derives it.

  /** The type the constructor's loop holds as the last type when it
      reaches trace k: the first trace's type to begin with. */
  function LastType(types: seq<string>, k: nat): string
    requires 2 <= |types| && k <= |types|
  {
    if k == 0 then types[0] else types[k - 1]
  }

  /** The type it holds as the one before last: the second trace's type to
      begin with, then the first's. */
  function LastType2(types: seq<string>, k: nat): string
    requires 2 <= |types| && k <= |types|
  {
    if k == 0 then types[1] else if k == 1 then types[0] else types[k - 2]
  }

  /** Trace k records the change point k - 1: its type equals the last type
      but not the one before. */
  predicate Records(types: seq<string>, k: nat)
    requires 2 <= |types| && k < |types|
  {
    types[k] == LastType(types, k) && types[k] != LastType2(types, k)
  }

  /** The change points recorded by the first n traces. */
  function GroundTruthUpTo(types: seq<string>, n: nat): seq<int>
    requires 2 <= |types| && n <= |types|
  {
    if n == 0 then []
    else GroundTruthUpTo(types, n - 1) + (if Records(types, n - 1) then [n - 2] else [])
  }

  function GroundTruth(types: seq<string>): seq<int>
    requires 2 <= |types|
  {
    GroundTruthUpTo(types, |types|)
  }

  /** c is a change point of the first n traces exactly when a new type
      starts at trace c and trace c + 1 repeats it; in addition -1 is one
      whenever the first two traces differ in type. */
  lemma {:induction false} GroundTruthUpToMembers(types: seq<string>, n: nat, c: int)
    requires 2 <= |types| && n <= |types|
    ensures c in GroundTruthUpTo(types, n)
        <==> (c == -1 && 1 <= n && types[0] != types[1])
             || (1 <= c && c + 1 < n && types[c] != types[c - 1] && types[c + 1] == types[c])
  {
    if n > 0 {
      GroundTruthUpToMembers(types, n - 1, c);
    }
  }

  /** The change points of the first n traces are strictly increasing and
      below n - 1. */
  lemma {:induction false} GroundTruthUpToSorted(types: seq<string>, n: nat)
    requires 2 <= |types| && n <= |types|
    ensures forall i :: 0 <= i < |GroundTruthUpTo(types, n)| ==> GroundTruthUpTo(types, n)[i] <= n - 2
    ensures forall i, j :: 0 <= i < j < |GroundTruthUpTo(types, n)| ==> GroundTruthUpTo(types, n)[i] < GroundTruthUpTo(types, n)[j]
  {
    if n > 0 {
      GroundTruthUpToSorted(types, n - 1);
    }
  }

  /** The ground truth of a whole log, by position. */
  lemma GroundTruthMembers(types: seq<string>, c: int)
    requires 2 <= |types|
    ensures c in GroundTruth(types)
        <==> (c == -1 && types[0] != types[1])
             || (1 <= c < |types| - 1 && types[c] != types[c - 1] && types[c + 1] == types[c])
  {
    GroundTruthUpToMembers(types, |types|, c);
  }

  lemma GroundTruthSorted(types: seq<string>)
    requires 2 <= |types|
    ensures forall i, j :: 0 <= i < j < |GroundTruth(types)| ==> GroundTruth(types)[i] < GroundTruth(types)[j]
  {
    GroundTruthUpToSorted(types, |types|);
  }

  /** So the ground truth has no repetitions, as EvaluationBounds needs. */
  lemma GroundTruthDistinct(types: seq<string>)
    requires 2 <= |types|
    ensures Distinct(GroundTruth(types))
  {
    GroundTruthSorted(types);
  }

  // Matching detected change points to the ground truth.

  /** A detected point matched to a change point of the ground truth: the
      name of the trace it falls on, its index and its distance. */
  datatype ChangePoint = ChangePoint(traceName: Option<string>, index: int, distance: int)

  datatype EvaluationError = IndexOutOfBounds(index: int)

  /** Precision, recall and the average distance of the matched points;
      None stands for the NaN of 0.0 / 0.0. */
  datatype EvaluationResult = EvaluationResult(precision: Option<real>, recall: Option<real>, averageDistance: Option<real>)

  function Distance(a: int, b: int): int
  {
    Abs(a - b)
  }

  /** An original change point can still take a detected point at this
      distance: it has none yet, or only a farther one. */
  predicate Eligible(detected: map<int, ChangePoint>, original: int, distance: int)
  {
    original !in detected || detected[original].distance > distance
  }

  /** The inner loop of evaluate from position j on, with the nearest
      eligible original point so far. */
  function Nearest(gt: seq<int>, detected: map<int, ChangePoint>, point: int, j: nat,
                   minimalIndex: int, minimalDistance: int): (int, int)
    requires j <= |gt|
    decreases |gt| - j
  {
    if j == |gt| then (minimalIndex, minimalDistance)
    else
      var distance := Distance(gt[j], point);
      if Eligible(detected, gt[j], distance) && minimalDistance > distance
      then Nearest(gt, detected, point, j + 1, gt[j], distance)
      else Nearest(gt, detected, point, j + 1, minimalIndex, minimalDistance)
  }

  /** One pass of evaluate's outer loop: the detected point is recorded at
      its nearest eligible original point, unless that is -1. */
  function MatchStep(gt: seq<int>, log: Log, detected: map<int, ChangePoint>, point: int)
    : Result<map<int, ChangePoint>, EvaluationError>
  {
    var (minimalIndex, minimalDistance) := Nearest(gt, detected, point, 0, -1, IntMax);
    if minimalIndex > -1 then
      if 0 <= point < |log| then Success(detected[minimalIndex := ChangePoint(TraceName(log[point]), point, minimalDistance)])
      else Failure(IndexOutOfBounds(point))
    else Success(detected)
  }

  /** The outer loop of evaluate from detected point i on. */
  function MatchFrom(gt: seq<int>, log: Log, points: seq<WindowSearch.ChangePoint>, i: nat,
                     detected: map<int, ChangePoint>): Result<map<int, ChangePoint>, EvaluationError>
    requires i <= |points|
    decreases |points| - i
  {
    if i == |points| then Success(detected)
    else
      match MatchStep(gt, log, detected, points[i].index)
      case Failure(e) => Failure(e)
      case Success(next) => MatchFrom(gt, log, points, i + 1, next)
  }

  /** The number of original points that took a detected point. */
  function Matched(gt: seq<int>, detected: map<int, ChangePoint>): nat
  {
    if gt == [] then 0
    else Matched(gt[..|gt| - 1], detected) + (if gt[|gt| - 1] in detected then 1 else 0)
  }

  /** The sum of their distances. */
  function DistanceSum(gt: seq<int>, detected: map<int, ChangePoint>): int
  {
    if gt == [] then 0
    else DistanceSum(gt[..|gt| - 1], detected) + (if gt[|gt| - 1] in detected then detected[gt[|gt| - 1]].distance else 0)
  }

  /** The exact quotient a / b on reals (Java's double quotient rounds it);
      None when b is 0. */
  function Ratio(a: int, b: int): Option<real>
  {
    if b == 0 then None else Some(a as real / b as real)
  }

  /** The counts and ratios evaluate returns for the matching `detected`. */
  function Summary(gt: seq<int>, detected: map<int, ChangePoint>, detections: nat): EvaluationResult
  {
    var tp := Matched(gt, detected);
    var fn := |gt| - tp;
    var fp := detections - tp;
    EvaluationResult(Ratio(tp, tp + fp), Ratio(tp, tp + fn), Ratio(DistanceSum(gt, detected), tp))
  }

  function EvaluationOf(gt: seq<int>, log: Log, points: seq<WindowSearch.ChangePoint>)
    : Result<EvaluationResult, EvaluationError>
  {
    match MatchFrom(gt, log, points, 0, map[])
    case Failure(e) => Failure(e)
    case Success(detected) => Success(Summary(gt, detected, |points|))
  }

  // What the matching establishes.

  /** The nearest eligible original point for a detected point. */
  function Chosen(gt: seq<int>, detected: map<int, ChangePoint>, point: int): (int, int)
  {
    Nearest(gt, detected, point, 0, -1, IntMax)
  }

  lemma {:induction false} NearestFrom(gt: seq<int>, detected: map<int, ChangePoint>, point: int, j: nat,
                                       minimalIndex: int, minimalDistance: int)
    requires j <= |gt|
    ensures Nearest(gt, detected, point, j, minimalIndex, minimalDistance).1 <= minimalDistance
    ensures forall k :: j <= k < |gt| && Eligible(detected, gt[k], Distance(gt[k], point))
              ==> Nearest(gt, detected, point, j, minimalIndex, minimalDistance).1 <= Distance(gt[k], point)
    ensures Nearest(gt, detected, point, j, minimalIndex, minimalDistance) == (minimalIndex, minimalDistance)
            || exists k :: j <= k < |gt| && Eligible(detected, gt[k], Distance(gt[k], point))
                 && Distance(gt[k], point) < minimalDistance
                 && Nearest(gt, detected, point, j, minimalIndex, minimalDistance) == (gt[k], Distance(gt[k], point))
    decreases |gt| - j
  {
    if j < |gt| {
      var distance := Distance(gt[j], point);
      if Eligible(detected, gt[j], distance) && minimalDistance > distance {
        NearestFrom(gt, detected, point, j + 1, gt[j], distance);
      } else {
        NearestFrom(gt, detected, point, j + 1, minimalIndex, minimalDistance);
      }
    }
  }

  /** The chosen original point is eligible and no eligible original point
      is nearer; when none is eligible the choice stays at -1. */
  lemma ChosenIsNearest(gt: seq<int>, detected: map<int, ChangePoint>, point: int)
    ensures forall k :: 0 <= k < |gt| && Eligible(detected, gt[k], Distance(gt[k], point))
              ==> Chosen(gt, detected, point).1 <= Distance(gt[k], point)
    ensures Chosen(gt, detected, point).1 < IntMax
            ==> exists k :: 0 <= k < |gt| && Eligible(detected, gt[k], Distance(gt[k], point))
                  && Chosen(gt, detected, point) == (gt[k], Distance(gt[k], point))
    ensures Chosen(gt, detected, point).1 >= IntMax ==> Chosen(gt, detected, point) == (-1, IntMax)
  {
    NearestFrom(gt, detected, point, 0, -1, IntMax);
  }

  /** Every recorded match sits at an original change point other than -1,
      holds a detected point inside the log with that trace's name, and its
      distance to the original point. */
  predicate Consistent(gt: seq<int>, log: Log, detected: map<int, ChangePoint>)
  {
    MatchesGroundTruth(gt, detected) && OnLog(log, detected)
  }

  predicate MatchesGroundTruth(gt: seq<int>, detected: map<int, ChangePoint>)
  {
    forall o :: o in detected ==>
      o in gt && o > -1 && detected[o].distance == Distance(o, detected[o].index)
  }

  predicate OnLog(log: Log, detected: map<int, ChangePoint>)
  {
    forall o :: o in detected ==>
      0 <= detected[o].index < |log| && detected[o].traceName == TraceName(log[detected[o].index])
  }

  /** A later matching keeps every original point that was matched, and
      never at a larger distance. */
  predicate Improves(detected: map<int, ChangePoint>, next: map<int, ChangePoint>)
  {
    detected.Keys <= next.Keys
    && forall o :: o in detected ==> next[o].distance <= detected[o].distance
  }

  /** One pass keeps the matching consistent, adds at most one original
      point, and changes an existing match only for a strictly nearer
      detected point. */
  lemma MatchStepConsistent(gt: seq<int>, log: Log, detected: map<int, ChangePoint>, point: int)
    requires Consistent(gt, log, detected)
    ensures var r := MatchStep(gt, log, detected, point);
      r.Success? ==>
        && Consistent(gt, log, r.value)
        && |r.value.Keys| <= |detected.Keys| + 1
        && detected.Keys <= r.value.Keys
        && (forall o :: o in detected ==> r.value[o] == detected[o] || r.value[o].distance < detected[o].distance)
  {
    ChosenIsNearest(gt, detected, point);
    var (minimalIndex, minimalDistance) := Chosen(gt, detected, point);
    if minimalIndex > -1 && 0 <= point < |log| {
      assert Eligible(detected, minimalIndex, minimalDistance);
      var next := detected[minimalIndex := ChangePoint(TraceName(log[point]), point, minimalDistance)];
      assert next.Keys == detected.Keys + {minimalIndex};
    }
  }

  lemma {:induction false} MatchFromConsistent(gt: seq<int>, log: Log, points: seq<WindowSearch.ChangePoint>, i: nat,
                                               detected: map<int, ChangePoint>)
    requires i <= |points| && Consistent(gt, log, detected)
    ensures MatchFrom(gt, log, points, i, detected).Success? ==>
      && Consistent(gt, log, MatchFrom(gt, log, points, i, detected).value)
      && |MatchFrom(gt, log, points, i, detected).value.Keys| <= |detected.Keys| + |points| - i
      && Improves(detected, MatchFrom(gt, log, points, i, detected).value)
    decreases |points| - i
  {
    if i < |points| {
      MatchStepConsistent(gt, log, detected, points[i].index);
      var step := MatchStep(gt, log, detected, points[i].index);
      if step.Success? {
        MatchFromConsistent(gt, log, points, i + 1, step.value);
      }
    }
  }

  /** The matching fails only on a detected point outside the log. */
  lemma {:induction false} MatchFromSucceeds(gt: seq<int>, log: Log, points: seq<WindowSearch.ChangePoint>, i: nat,
                                             detected: map<int, ChangePoint>)
    requires i <= |points|
    requires forall k :: i <= k < |points| ==> 0 <= points[k].index < |log|
    ensures MatchFrom(gt, log, points, i, detected).Success?
    decreases |points| - i
  {
    if i < |points| {
      MatchFromSucceeds(gt, log, points, i + 1, MatchStep(gt, log, detected, points[i].index).value);
    }
  }

  predicate Distinct(gt: seq<int>)
  {
    forall i, j :: 0 <= i < j < |gt| ==> gt[i] != gt[j]
  }

  function Elems(s: seq<int>): set<int>
  {
    set x | x in s
  }

  /** On a list without repetitions, Matched counts the matched original
      points that occur in it. */
  lemma {:induction false} MatchedCounts(gt: seq<int>, detected: map<int, ChangePoint>)
    requires Distinct(gt)
    ensures Matched(gt, detected) == |detected.Keys * Elems(gt)|
  {
    if gt != [] {
      var init := gt[..|gt| - 1];
      assert gt == init + [gt[|gt| - 1]];
      assert Distinct(init);
      MatchedCounts(init, detected);
      IntersectSnoc(detected.Keys, init, gt[|gt| - 1]);
    }
  }

  /** Adding a new element to a list adds it to the intersection exactly
      when it is in the set. */
  lemma IntersectSnoc(keys: set<int>, init: seq<int>, x: int)
    requires x !in init
    ensures |keys * Elems(init + [x])| == |keys * Elems(init)| + (if x in keys then 1 else 0)
  {
    assert Elems(init + [x]) == Elems(init) + {x};
    if x in keys {
      assert keys * Elems(init + [x]) == (keys * Elems(init)) + {x};
    } else {
      assert keys * Elems(init + [x]) == keys * Elems(init);
    }
  }

  /** A list without repetitions has as many elements as positions. */
  lemma {:induction false} DistinctElems(gt: seq<int>)
    requires Distinct(gt)
    ensures |Elems(gt)| == |gt|
  {
    if gt != [] {
      var init := gt[..|gt| - 1];
      assert Distinct(init);
      DistinctElems(init);
      assert gt[|gt| - 1] !in Elems(init);
      assert Elems(gt) == Elems(init) + {gt[|gt| - 1]};
    }
  }

  /** Matched distances add up to a non-negative sum, which is zero when
      nothing matched. */
  lemma {:induction false} DistanceSumBounds(gt: seq<int>, detected: map<int, ChangePoint>)
    requires forall o :: o in detected ==> detected[o].distance >= 0
    ensures DistanceSum(gt, detected) >= 0
    ensures Matched(gt, detected) == 0 ==> DistanceSum(gt, detected) == 0
  {
    if gt != [] {
      DistanceSumBounds(gt[..|gt| - 1], detected);
      var x := gt[|gt| - 1];
      if x in detected {
        assert detected[x].distance >= 0;
      }
    }
  }

  /** For a matching against a ground truth without repetitions: the true
      positives are the matched original points, at most all of them and
      fewer when -1 is among them. */
  lemma MatchedBounds(gt: seq<int>, detected: map<int, ChangePoint>)
    requires Distinct(gt) && MatchesGroundTruth(gt, detected)
    ensures Matched(gt, detected) == |detected.Keys|
    ensures Matched(gt, detected) <= |gt|
    ensures -1 in gt ==> Matched(gt, detected) < |gt|
    ensures DistanceSum(gt, detected) >= 0
    ensures Matched(gt, detected) == 0 ==> DistanceSum(gt, detected) == 0
  {
    MatchedCounts(gt, detected);
    DistinctElems(gt);
    forall o | o in detected ensures o in Elems(gt) && o != -1 && detected[o].distance >= 0 {
    }
    assert detected.Keys * Elems(gt) == detected.Keys;
    DistanceSumBounds(gt, detected);
    SubsetSize(detected.Keys, Elems(gt));
    if -1 in gt {
      assert -1 in Elems(gt) - detected.Keys;
    }
  }

  lemma SubsetSize(a: set<int>, b: set<int>)
    requires a <= b
    ensures |a| <= |b|
    ensures b - a != {} ==> |a| < |b|
  {
    assert b == a + (b - a);
    assert a * (b - a) == {};
  }

  /** A count of a total is a fraction, below one when the count is smaller. */
  lemma RatioBounds(a: int, b: int)
    requires 0 <= a <= b && 0 < b
    ensures Ratio(a, b).Some? && 0.0 <= Ratio(a, b).value <= 1.0
    ensures a < b ==> Ratio(a, b).value < 1.0
  {
    var q := a as real / b as real;
    assert q * (b as real) == a as real;
  }

  /** Against a ground truth without repetitions: precision and recall are
      fractions, undefined exactly when nothing was detected or there is
      nothing to detect; the average distance is undefined exactly when
      nothing matched and is never negative; and an original change point
      at -1 is never matched, so then the recall stays below 1. */
  lemma EvaluationBounds(gt: seq<int>, log: Log, points: seq<WindowSearch.ChangePoint>)
    requires Distinct(gt) && EvaluationOf(gt, log, points).Success?
    ensures EvaluationOf(gt, log, points).value.precision.None? <==> |points| == 0
    ensures EvaluationOf(gt, log, points).value.precision.Some?
            ==> 0.0 <= EvaluationOf(gt, log, points).value.precision.value <= 1.0
    ensures EvaluationOf(gt, log, points).value.recall.None? <==> |gt| == 0
    ensures EvaluationOf(gt, log, points).value.recall.Some?
            ==> 0.0 <= EvaluationOf(gt, log, points).value.recall.value <= 1.0
    ensures EvaluationOf(gt, log, points).value.averageDistance.Some?
            ==> 0.0 <= EvaluationOf(gt, log, points).value.averageDistance.value
    ensures -1 in gt ==> EvaluationOf(gt, log, points).value.recall.Some?
                         && EvaluationOf(gt, log, points).value.recall.value < 1.0
  {
    var detected := MatchFrom(gt, log, points, 0, map[]).value;
    MatchFromConsistent(gt, log, points, 0, map[]);
    MatchedBounds(gt, detected);
    var tp := Matched(gt, detected);
    var sum := DistanceSum(gt, detected);
    assert EvaluationOf(gt, log, points).value
        == EvaluationResult(Ratio(tp, |points|), Ratio(tp, |gt|), Ratio(sum, tp));
    if |points| > 0 {
      RatioBounds(tp, |points|);
    }
    if |gt| > 0 {
      RatioBounds(tp, |gt|);
    }
    if tp > 0 {
      AverageBounds(sum, tp);
    }
  }

  lemma AverageBounds(a: int, b: int)
    requires 0 <= a && 0 < b
    ensures Ratio(a, b).Some? && 0.0 <= Ratio(a, b).value
  {
    var q := a as real / b as real;
    assert q * (b as real) == a as real;
  }

  class EvaluationCalculator {
    var originalChangePoints: seq<int>
    var log: Log

    /** Reads the change points off the trace types: a change point is
        recorded one trace before a trace whose type repeats the last type
        but not the one before it. */
    constructor(log: Log)
      requires 2 <= |log| && Named(log)
      ensures this.log == log && originalChangePoints == GroundTruth(TypesOf(log))
    {
      this.log := log;
      var changePoints := OriginalChangePoints(log);
      originalChangePoints := changePoints;
    }

    /** The loop of the constructor, over the trace types (getTraceType of
        each trace, computed up front). */
    static method OriginalChangePoints(log: Log) returns (changePoints: seq<int>)
      requires 2 <= |log| && Named(log)
      ensures changePoints == GroundTruth(TypesOf(log))
    {
      var types := TypesOf(log);
      changePoints := [];
      var lastTraceType := types[0];
      var lastTraceType2 := types[1];
      for k := 0 to |log|
        invariant changePoints == GroundTruthUpTo(types, k)
        invariant lastTraceType == LastType(types, k) && lastTraceType2 == LastType2(types, k)
      {
        var curTraceType := types[k];
        changePoints := Observe(types, k, lastTraceType, lastTraceType2, curTraceType, changePoints);
        lastTraceType2 := lastTraceType;
        lastTraceType := curTraceType;
      }
    }

    /** The body of the constructor's loop for trace k of type curTraceType. */
    static method Observe(ghost types: seq<string>, k: nat, lastTraceType: string, lastTraceType2: string,
                          curTraceType: string, changePoints: seq<int>)
      returns (changePoints': seq<int>)
      requires 2 <= |types| && k < |types| && curTraceType == types[k]
      requires lastTraceType == LastType(types, k) && lastTraceType2 == LastType2(types, k)
      requires changePoints == GroundTruthUpTo(types, k)
      ensures changePoints' == GroundTruthUpTo(types, k + 1)
    {
      changePoints' := changePoints;
      if lastTraceType != curTraceType && lastTraceType2 == curTraceType {
        // no change point
      } else if lastTraceType != curTraceType {
        // no change point either
      } else if lastTraceType == curTraceType && lastTraceType2 != curTraceType {
        changePoints' := changePoints + [k - 1];
      }
    }

    /** Matches every detected point to its nearest original change point
        and counts true positives, false negatives and false positives. */
    method Evaluate(changePoints: seq<WindowSearch.ChangePoint>) returns (r: Result<EvaluationResult, EvaluationError>)
      ensures r == EvaluationOf(originalChangePoints, log, changePoints)
    {
      var detectedChangePoints: map<int, ChangePoint> := map[];
      for i := 0 to |changePoints|
        invariant MatchFrom(originalChangePoints, log, changePoints, i, detectedChangePoints)
                  == MatchFrom(originalChangePoints, log, changePoints, 0, map[])
      {
        var point := changePoints[i].index;
        var minimalIndex, minimalDistance := Closest(detectedChangePoints, point);
        if minimalIndex > -1 {
          if !(0 <= point < |log|) {
            return Failure(IndexOutOfBounds(point));
          }
          detectedChangePoints := detectedChangePoints[minimalIndex := ChangePoint(TraceName(log[point]), point, minimalDistance)];
        }
      }
      var tp, fn, distance := 0, 0, 0;
      for j := 0 to |originalChangePoints|
        invariant tp == Matched(originalChangePoints[..j], detectedChangePoints)
        invariant fn == j - tp
        invariant distance == DistanceSum(originalChangePoints[..j], detectedChangePoints)
      {
        assert originalChangePoints[..j + 1][..j] == originalChangePoints[..j];
        var originalChange := originalChangePoints[j];
        if originalChange in detectedChangePoints {
          tp := tp + 1;
          distance := distance + detectedChangePoints[originalChange].distance;
        } else {
          fn := fn + 1;
        }
      }
      assert originalChangePoints[..|originalChangePoints|] == originalChangePoints;
      var fp := |changePoints| - tp;
      r := Success(EvaluationResult(Ratio(tp, tp + fp), Ratio(tp, tp + fn), Ratio(distance, tp)));
    }

    /** The inner loop of evaluate. */
    method Closest(detected: map<int, ChangePoint>, point: int) returns (minimalIndex: int, minimalDistance: int)
      ensures (minimalIndex, minimalDistance) == Nearest(originalChangePoints, detected, point, 0, -1, IntMax)
    {
      minimalIndex, minimalDistance := -1, IntMax;
      for j := 0 to |originalChangePoints|
        invariant Nearest(originalChangePoints, detected, point, j, minimalIndex, minimalDistance)
                  == Nearest(originalChangePoints, detected, point, 0, -1, IntMax)
      {
        var originalPoint := originalChangePoints[j];
        var distance := Distance(originalPoint, point);
        if !(originalPoint in detected) || detected[originalPoint].distance > distance {
          if minimalDistance > distance {
            minimalIndex := originalPoint;
            minimalDistance := distance;
          }
        }
      }
    }
  }
}
