/** The change-point search of ProcessDriftDetectionPlugin.main: sliding a
    reference and a detection window over the log, refining the position of
    a detected drift in steps of 10 traces, and rescaling the window.

    The p-values of two adjacent windows come from mining both windows and
    running a G-test on their metric vectors; here they are an oracle
    pv(windowSize, index) for the windows [index, index + windowSize) and
    [index + windowSize, index + 2 * windowSize). The reasons attached to a
    change point are likewise an oracle reasons(windowSize, index); the
    Reasons module models how calculateReasons computes them. */
module WindowSearch {
  import opened Wrappers

  const ArcThreshold: real := 0.0001
  const NodeThreshold: real := 0.9
  const InitialWindowSize: int := 100
  const MaxWindowSize: int := 200
  const CandidateStep: int := 10
  const IntMax: int := 2147483647
  const IntMin: int := -2147483648

  /** A PValue: the node and the arc p-value of two adjacent windows. */
  datatype PValue = PValue(node: real, arc: real)

  type PValueOracle = (int, int) -> PValue
  type ReasonsOracle = (int, int) -> map<string, string>

  datatype ChangePoint = ChangePoint(index: int, reasons: map<string, string>)

  /** The loop state of main. */
  datatype State = State(index: int, windowSize: int)

  /** Java's int division, which truncates toward zero. */
  function JavaDiv(x: int, y: int): int
    requires y != 0
  {
    var a := if x < 0 then -x else x;
    var b := if y < 0 then -y else y;
    if (x < 0) == (y < 0) then a / b else -(a / b)
  }

  /** The (int) cast of a double that holds an integer: saturating at the
      ends of the int range. */
  function Saturate(x: int): int
  {
    if x > IntMax then IntMax else if x < IntMin then IntMin else x
  }

  /** `windowSize *= (double) a / (double) b`, with the quotient taken
      exactly rather than rounded to a double. A zero b makes the factor
      NaN (a == 0) or an infinity, and the cast maps NaN to 0 and the
      infinities to the ends of the int range. */
  function Scale(windowSize: int, a: int, b: int): (r: int)
    ensures IntMin <= r <= IntMax
    ensures windowSize == 0 || a == 0 ==> r == 0
    ensures 0 <= windowSize <= IntMax && 0 <= a <= b && 0 < b ==> 0 <= r <= windowSize
    ensures 0 <= windowSize <= IntMax && 0 < b <= a ==> windowSize <= r
  {
    if b == 0 then
      if a == 0 || windowSize == 0 then 0
      else if (a > 0) == (windowSize > 0) then IntMax
      else IntMin
    else
      var p := windowSize * a;
      assert windowSize == 0 || a == 0 ==> p == 0;
      if 0 <= windowSize && 0 <= a && 0 < b then
        ScaleBounds(windowSize, a, b);
        assert JavaDiv(p, b) == p / b;
        Saturate(JavaDiv(p, b))
      else Saturate(JavaDiv(p, b))
  }

  /** Scaling a non-negative window by a / b stays between 0 and the window
      when a <= b, and at or above it when a >= b. */
  lemma ScaleBounds(windowSize: int, a: int, b: int)
    requires 0 <= windowSize && 0 <= a && 0 < b
    ensures 0 <= (windowSize * a) / b
    ensures a <= b ==> (windowSize * a) / b <= windowSize
    ensures b <= a ==> windowSize <= (windowSize * a) / b
  {
    ScaleNonNegative(windowSize, a, b);
    if a <= b {
      ScaleShrinks(windowSize, a, b);
    }
    if b <= a {
      ScaleGrows(windowSize, a, b);
    }
  }

  lemma ScaleNonNegative(windowSize: int, a: int, b: int)
    requires 0 <= windowSize && 0 <= a && 0 < b
    ensures 0 <= (windowSize * a) / b
  {
    var p := windowSize * a;
    MulLe(0, a, windowSize);
    assert 0 <= p;
    var q := p / b;
    assert p == q * b + p % b && p % b < b;
    if q < 0 {
      MulLe(q, -1, b);
    }
  }

  lemma ScaleShrinks(windowSize: int, a: int, b: int)
    requires 0 <= windowSize && 0 <= a <= b && 0 < b
    ensures (windowSize * a) / b <= windowSize
  {
    var p := windowSize * a;
    var q := p / b;
    assert p == q * b + p % b && 0 <= p % b;
    MulLe(a, b, windowSize);
    assert p <= b * windowSize;
    if q > windowSize {
      MulLe(windowSize + 1, q, b);
    }
  }

  lemma ScaleGrows(windowSize: int, a: int, b: int)
    requires 0 <= windowSize && 0 < b <= a
    ensures windowSize <= (windowSize * a) / b
  {
    var p := windowSize * a;
    var q := p / b;
    assert p == q * b + p % b && p % b < b;
    MulLe(b, a, windowSize);
    assert b * windowSize <= p;
    if q < windowSize {
      MulLe(q + 1, windowSize, b);
    }
  }

  /** Multiplying by a non-negative number is monotone. */
  lemma MulLe(x: int, y: int, c: int)
    requires x <= y && 0 <= c
    ensures x * c <= y * c
  {
    assert y * c == x * c + (y - x) * c;
  }

  /** `windowSize *= 1.2`, taking 1.2 as exactly 6/5. Windows of 1 to 4
      traces do not grow at all (4 * 1.2 = 4.8 truncates to 4); from 5 on
      every growth adds at least one trace, until the int range saturates. */
  function Grow(windowSize: int): (r: int)
    ensures 0 <= windowSize <= IntMax ==> windowSize <= r <= IntMax
    ensures 0 <= windowSize < 5 ==> r == windowSize
    ensures 5 <= windowSize < IntMax ==> windowSize < r
  {
    Saturate(JavaDiv(windowSize * 6, 5))
  }

  /** The arc p-value is below the drift threshold. */
  predicate Drift(p: PValue)
  {
    p.arc < ArcThreshold
  }

  /** Both p-values confirm a change point. */
  predicate Confirms(p: PValue)
  {
    p.arc < ArcThreshold && p.node < NodeThreshold
  }

  /** The arc p-value rose by more than 0.5 since the previous candidate. */
  predicate StopsEarly(before: PValue, p: PValue)
  {
    before.arc - p.arc < -0.5
  }

  /** The change point a confirming candidate i yields. */
  function ChangeIndex(i: int, newWindowSize: int): int
  {
    i - CandidateStep + newWindowSize * 2
  }

  /** What the refinement loop leaves behind: whether a change point was
      found, its index, lastIndex, and (for the proofs) the candidates at
      which a p-value was computed. */
  datatype Refinement = Refinement(found: bool, changeIndex: int, lastIndex: int, evaluated: seq<int>)

  /** The refinement loop of main from candidate i on, with the previous
      p-value `before` and the current lastIndex. */
  function RefineFrom(pv: PValueOracle, logSize: int, newWindowSize: int, i: int, end: int,
                      before: PValue, lastIndex: int): Refinement
    decreases end - i
  {
    if i >= end || i + newWindowSize * 2 > logSize then Refinement(false, 0, lastIndex, [])
    else
      var last := i + newWindowSize * 2;
      var p := pv(newWindowSize, i);
      if StopsEarly(before, p) then Refinement(false, 0, last, [i])
      else if Confirms(p) then Refinement(true, ChangeIndex(i, newWindowSize), last, [i])
      else
        var r := RefineFrom(pv, logSize, newWindowSize, i + CandidateStep, end, p, last);
        r.(evaluated := [i] + r.evaluated)
  }

  /** The refinement main runs at `index` with window size ws. */
  function RefineAt(pv: PValueOracle, logSize: int, s: State): Refinement
  {
    var nws := JavaDiv(s.windowSize, 2);
    RefineFrom(pv, logSize, nws, s.index + s.windowSize - nws, s.index + 2 * s.windowSize - nws,
               PValue(1.0, 1.0), s.index + 2 * s.windowSize)
  }

  /** One pass of main's while loop: the next state and the change point it
      adds, if any. */
  datatype Step = Step(next: State, change: Option<ChangePoint>)

  function StepAt(pv: PValueOracle, reasons: ReasonsOracle, logSize: int, s: State): Step
  {
    var index, ws := s.index, s.windowSize;
    var nws := JavaDiv(ws, 2);
    var r := RefineAt(pv, logSize, s);
    var (index', ws', change) :=
      if !Drift(pv(ws, index)) then (index, Grow(ws), None)
      else if r.found then
        (r.changeIndex, Scale(ws, r.changeIndex, index + ws * 2),
         Some(ChangePoint(r.changeIndex, reasons(nws, r.changeIndex))))
      else
        var w := Scale(ws, r.lastIndex, index + ws * 2);
        (index + w, w, None);
    if ws' >= MaxWindowSize then Step(State(index' + MaxWindowSize, InitialWindowSize), change)
    else Step(State(index', ws'), change)
  }

  /** The loop condition of main. */
  predicate Continues(logSize: int, s: State)
  {
    s.index < logSize - s.windowSize
  }

  /** At most `fuel` passes of main's loop from s: the change points in
      order, the final state and the number of passes. */
  datatype Scan = Scan(changePoints: seq<ChangePoint>, final: State, steps: nat)

  function ScanFrom(pv: PValueOracle, reasons: ReasonsOracle, logSize: int, s: State, fuel: nat): Scan
    decreases fuel
  {
    if fuel == 0 || !Continues(logSize, s) then Scan([], s, 0)
    else
      var st := StepAt(pv, reasons, logSize, s);
      var rest := ScanFrom(pv, reasons, logSize, st.next, fuel - 1);
      var added := if st.change.Some? then [st.change.value] else [];
      Scan(added + rest.changePoints, rest.final, rest.steps + 1)
  }

  /** One pass of main's loop, then the rest of the scan. */
  lemma ScanUnfold(pv: PValueOracle, reasons: ReasonsOracle, logSize: int, s: State, fuel: nat)
    requires fuel > 0 && Continues(logSize, s)
    ensures var st := StepAt(pv, reasons, logSize, s);
      var rest := ScanFrom(pv, reasons, logSize, st.next, fuel - 1);
      ScanFrom(pv, reasons, logSize, s, fuel)
        == Scan((if st.change.Some? then [st.change.value] else []) + rest.changePoints, rest.final, rest.steps + 1)
  {
  }

  // The loops of main.

  /** The refinement loop of main (the inner for loop). */
  method Refine(pv: PValueOracle, logSize: int, index: int, windowSize: int)
    returns (found: bool, changeIndex: int, lastIndex: int)
    ensures var r := RefineAt(pv, logSize, State(index, windowSize));
      found == r.found && lastIndex == r.lastIndex && (found ==> changeIndex == r.changeIndex)
  {
    var newWindowSize := JavaDiv(windowSize, 2);
    var beginDetWindow := index + windowSize;
    var endDetWindow := index + windowSize * 2;
    found := false;
    changeIndex := 0;
    lastIndex := index + windowSize * 2;
    var before := PValue(1.0, 1.0);
    ghost var target := RefineAt(pv, logSize, State(index, windowSize));
    var i := beginDetWindow - newWindowSize;
    while i < endDetWindow - newWindowSize
      invariant !found
      invariant RefineFrom(pv, logSize, newWindowSize, i, endDetWindow - newWindowSize, before, lastIndex)
                  .(evaluated := []) == target.(evaluated := [])
      decreases endDetWindow - newWindowSize - i
    {
      if i + newWindowSize * 2 > logSize {
        break;
      }
      lastIndex := i + newWindowSize * 2;
      var p := pv(newWindowSize, i);
      if before.arc - p.arc < -0.5 {
        break;
      }
      before := p;
      if p.arc < ArcThreshold && p.node < NodeThreshold {
        changeIndex := i - 10 + newWindowSize * 2;
        found := true;
        break;
      }
      i := i + 10;
    }
  }

  /** One pass of the body of main's while loop. */
  method Pass(pv: PValueOracle, reasons: ReasonsOracle, logSize: int, index: int, windowSize: int)
    returns (index': int, windowSize': int, change: Option<ChangePoint>)
    ensures Step(State(index', windowSize'), change) == StepAt(pv, reasons, logSize, State(index, windowSize))
  {
    var maxWindowSize := MaxWindowSize;
    index', windowSize', change := index, windowSize, None;
    var p := pv(windowSize, index);
    if p.arc < ArcThreshold {
      var newWindowSize := JavaDiv(windowSize, 2);
      var found, changeIndex, lastIndex := Refine(pv, logSize, index, windowSize);
      if found {
        change := Some(ChangePoint(changeIndex, reasons(newWindowSize, changeIndex)));
        windowSize' := Scale(windowSize, changeIndex, index + windowSize * 2);
        index' := changeIndex;
      } else {
        windowSize' := Scale(windowSize, lastIndex, index + windowSize * 2);
        index' := index + windowSize';
      }
    } else {
      windowSize' := Grow(windowSize);
    }
    if windowSize' >= maxWindowSize {
      index' := index' + maxWindowSize;
      windowSize' := 100;
    }
  }

  /** The change points found so far followed by the rest of the scan give the whole scan. */
  ghost predicate DetectState(pv: PValueOracle, reasons: ReasonsOracle, logSize: int, target: Scan,
                              changePoints: seq<ChangePoint>, s: State, left: nat)
  {
    var rest := ScanFrom(pv, reasons, logSize, s, left);
    changePoints + rest.changePoints == target.changePoints && rest.final == target.final
  }

  lemma DetectStep(pv: PValueOracle, reasons: ReasonsOracle, logSize: int, target: Scan,
                   changePoints: seq<ChangePoint>, s: State, left: nat)
    requires left > 0 && Continues(logSize, s)
    requires DetectState(pv, reasons, logSize, target, changePoints, s, left)
    ensures var st := StepAt(pv, reasons, logSize, s);
      DetectState(pv, reasons, logSize, target,
                  changePoints + (if st.change.Some? then [st.change.value] else []), st.next, left - 1)
  {
    ScanUnfold(pv, reasons, logSize, s, left);
    var st := StepAt(pv, reasons, logSize, s);
    var added := if st.change.Some? then [st.change.value] else [];
    var rest := ScanFrom(pv, reasons, logSize, st.next, left - 1);
    assert changePoints + (added + rest.changePoints) == changePoints + added + rest.changePoints;
  }

  /** One pass of main's while loop together with the bookkeeping of the change points. */
  method DetectPass(pv: PValueOracle, reasons: ReasonsOracle, logSize: int, ghost target: Scan,
                    changePoints: seq<ChangePoint>, index: int, windowSize: int, ghost left: nat)
    returns (changePoints': seq<ChangePoint>, index': int, windowSize': int)
    requires left > 0 && Continues(logSize, State(index, windowSize))
    requires DetectState(pv, reasons, logSize, target, changePoints, State(index, windowSize), left)
    ensures DetectState(pv, reasons, logSize, target, changePoints', State(index', windowSize'), left - 1)
  {
    DetectStep(pv, reasons, logSize, target, changePoints, State(index, windowSize), left);
    var change;
    index', windowSize', change := Pass(pv, reasons, logSize, index, windowSize);
    changePoints' := changePoints;
    if change.Some? {
      changePoints' := changePoints + [change.value];
    }
  }

  /** The while loop of main, bounded by `fuel` passes. */
  method Detect(pv: PValueOracle, reasons: ReasonsOracle, logSize: int, fuel: nat)
    returns (changePoints: seq<ChangePoint>, index: int, windowSize: int)
    ensures var scan := ScanFrom(pv, reasons, logSize, State(0, InitialWindowSize), fuel);
      changePoints == scan.changePoints && State(index, windowSize) == scan.final
  {
    changePoints := [];
    windowSize := InitialWindowSize;
    index := 0;
    var left := fuel;
    ghost var target := ScanFrom(pv, reasons, logSize, State(0, InitialWindowSize), fuel);
    assert [] + target.changePoints == target.changePoints;
    while left > 0 && index < logSize - windowSize
      invariant DetectState(pv, reasons, logSize, target, changePoints, State(index, windowSize), left)
      decreases left
    {
      changePoints, index, windowSize := DetectPass(pv, reasons, logSize, target, changePoints, index, windowSize, left);
      left := left - 1;
    }
    assert changePoints + [] == changePoints;
  }

  // Properties of the refinement loop.

  /** The p-value the candidate at position k of `evaluated` is compared with:
      the starting value for the first candidate, the previous candidate's otherwise. */
  function Prior(pv: PValueOracle, newWindowSize: int, evaluated: seq<int>, before: PValue, k: nat): PValue
    requires k < |evaluated|
  {
    if k == 0 then before else pv(newWindowSize, evaluated[k - 1])
  }

  /** The candidates lie 10 traces apart from the first one, inside the
      refinement range and with the whole detection window inside the log;
      lastIndex is the end of the last candidate's detection window (the
      starting lastIndex when there was none); every candidate before the
      last neither stopped the loop nor confirmed a change point. */
  lemma {:induction false} RefineCandidates(pv: PValueOracle, logSize: int, newWindowSize: int, i: int, end: int,
                                            before: PValue, lastIndex: int)
    ensures var r := RefineFrom(pv, logSize, newWindowSize, i, end, before, lastIndex);
      var ev := r.evaluated;
      && (forall k :: 0 <= k < |ev| ==> ev[k] == i + CandidateStep * k)
      && (forall k :: 0 <= k < |ev| ==> ev[k] < end && ev[k] + newWindowSize * 2 <= logSize)
      && r.lastIndex == (if |ev| == 0 then lastIndex else ev[|ev| - 1] + newWindowSize * 2)
      && (forall k :: 0 <= k < |ev| - 1 ==>
            !StopsEarly(Prior(pv, newWindowSize, ev, before, k), pv(newWindowSize, ev[k]))
            && !Confirms(pv(newWindowSize, ev[k])))
    decreases end - i
  {
    var r := RefineFrom(pv, logSize, newWindowSize, i, end, before, lastIndex);
    if i >= end || i + newWindowSize * 2 > logSize {
    } else {
      var p := pv(newWindowSize, i);
      if StopsEarly(before, p) || Confirms(p) {
      } else {
        var last := i + newWindowSize * 2;
        var rest := RefineFrom(pv, logSize, newWindowSize, i + CandidateStep, end, p, last);
        RefineCandidates(pv, logSize, newWindowSize, i + CandidateStep, end, p, last);
        assert r.evaluated == [i] + rest.evaluated;
        forall k | 0 <= k < |r.evaluated| - 1
          ensures !StopsEarly(Prior(pv, newWindowSize, r.evaluated, before, k), pv(newWindowSize, r.evaluated[k]))
                  && !Confirms(pv(newWindowSize, r.evaluated[k]))
        {
          if k > 0 {
            assert r.evaluated[k] == rest.evaluated[k - 1];
            assert Prior(pv, newWindowSize, r.evaluated, before, k)
                == Prior(pv, newWindowSize, rest.evaluated, p, k - 1);
          }
        }
      }
    }
  }

  /** A change point is found exactly when the last candidate did not stop
      the loop and confirmed; its index is then that candidate's. When none
      is found, the loop either stopped early at its last candidate or ran
      out of candidates: the next one would leave the range or the log. */
  lemma {:induction false} RefineOutcome(pv: PValueOracle, logSize: int, newWindowSize: int, i: int, end: int,
                                         before: PValue, lastIndex: int)
    ensures var r := RefineFrom(pv, logSize, newWindowSize, i, end, before, lastIndex);
      var ev := r.evaluated;
      var n := |ev|;
      && (r.found <==> n > 0 && !StopsEarly(Prior(pv, newWindowSize, ev, before, n - 1), pv(newWindowSize, ev[n - 1]))
                           && Confirms(pv(newWindowSize, ev[n - 1])))
      && (r.found ==> r.changeIndex == ChangeIndex(ev[n - 1], newWindowSize))
      && ((!r.found && (n == 0 || !StopsEarly(Prior(pv, newWindowSize, ev, before, n - 1), pv(newWindowSize, ev[n - 1]))))
            ==> i + CandidateStep * n >= end || i + CandidateStep * n + newWindowSize * 2 > logSize)
    decreases end - i
  {
    var r := RefineFrom(pv, logSize, newWindowSize, i, end, before, lastIndex);
    if i >= end || i + newWindowSize * 2 > logSize {
    } else {
      var p := pv(newWindowSize, i);
      if StopsEarly(before, p) || Confirms(p) {
      } else {
        var last := i + newWindowSize * 2;
        var rest := RefineFrom(pv, logSize, newWindowSize, i + CandidateStep, end, p, last);
        RefineOutcome(pv, logSize, newWindowSize, i + CandidateStep, end, p, last);
        var n := |rest.evaluated|;
        assert r.evaluated == [i] + rest.evaluated;
        if n > 0 {
          assert r.evaluated[n] == rest.evaluated[n - 1];
          assert Prior(pv, newWindowSize, r.evaluated, before, n)
              == Prior(pv, newWindowSize, rest.evaluated, p, n - 1);
        }
      }
    }
  }

  /** A change point found from candidate i on is one of the candidates
      shifted by twice the window minus one step, inside the range and at
      most one step before the end of the log. */
  lemma RefineFound(pv: PValueOracle, logSize: int, newWindowSize: int, i: int, end: int,
                    before: PValue, lastIndex: int)
    requires RefineFrom(pv, logSize, newWindowSize, i, end, before, lastIndex).found
    ensures var c := RefineFrom(pv, logSize, newWindowSize, i, end, before, lastIndex).changeIndex;
      && i + newWindowSize * 2 - CandidateStep <= c < end + newWindowSize * 2 - CandidateStep
      && c <= logSize - CandidateStep
      && (c - (i + newWindowSize * 2 - CandidateStep)) % CandidateStep == 0
  {
    var r := RefineFrom(pv, logSize, newWindowSize, i, end, before, lastIndex);
    RefineCandidates(pv, logSize, newWindowSize, i, end, before, lastIndex);
    RefineOutcome(pv, logSize, newWindowSize, i, end, before, lastIndex);
    var n := |r.evaluated|;
    assert r.changeIndex - (i + newWindowSize * 2 - CandidateStep) == CandidateStep * (n - 1);
  }

  // Properties of one pass.

  /** After a pass the window is always below the maximum: a window that
      grew to the maximum is reset to the initial size. */
  lemma StepWindowBelowMax(pv: PValueOracle, reasons: ReasonsOracle, logSize: int, s: State)
    ensures StepAt(pv, reasons, logSize, s).next.windowSize < MaxWindowSize
  {
  }

  /** Without a drift in the arc p-value no change point is reported and
      the window grows by 20 percent in place, unless it reaches the maximum,
      in which case the search jumps ahead by the maximum and restarts with
      the initial window. */
  lemma StepWithoutDrift(pv: PValueOracle, reasons: ReasonsOracle, logSize: int, s: State)
    requires !Drift(pv(s.windowSize, s.index))
    ensures var st := StepAt(pv, reasons, logSize, s);
      && st.change == None
      && (Grow(s.windowSize) < MaxWindowSize ==> st.next == State(s.index, Grow(s.windowSize)))
      && (Grow(s.windowSize) >= MaxWindowSize ==> st.next == State(s.index + MaxWindowSize, InitialWindowSize))
  {
  }

  /** A reported change point lies within the detection window shifted by
      half a window minus one candidate step, at most 10 traces before the
      end of the log, and carries the reasons computed at half the window
      size. The window is rescaled by the change point's distance from the
      start relative to the end of the detection window, and the search
      resumes at the change point, or the maximum window size after it when
      the rescaled window reaches the maximum. */
  lemma StepChangePoint(pv: PValueOracle, reasons: ReasonsOracle, logSize: int, s: State)
    requires StepAt(pv, reasons, logSize, s).change.Some?
    ensures var st := StepAt(pv, reasons, logSize, s);
      var cp := st.change.value;
      var nws := JavaDiv(s.windowSize, 2);
      && Drift(pv(s.windowSize, s.index))
      && s.index + s.windowSize + nws - CandidateStep <= cp.index < s.index + 2 * s.windowSize + nws - CandidateStep
      && cp.index <= logSize - CandidateStep
      && (cp.index - (s.index + s.windowSize + nws - CandidateStep)) % CandidateStep == 0
      && cp.reasons == reasons(nws, cp.index)
      && (var w := Scale(s.windowSize, cp.index, s.index + 2 * s.windowSize);
          && (w < MaxWindowSize ==> st.next == State(cp.index, w))
          && (w >= MaxWindowSize ==> st.next == State(cp.index + MaxWindowSize, InitialWindowSize)))
  {
    var nws := JavaDiv(s.windowSize, 2);
    RefineFound(pv, logSize, nws, s.index + s.windowSize - nws, s.index + 2 * s.windowSize - nws,
                PValue(1.0, 1.0), s.index + 2 * s.windowSize);
  }

  /** With a drift but no confirmed change point the search moves on by the
      rescaled window, which is the old one scaled by how far the refinement
      got (lastIndex) relative to the end of the detection window. */
  lemma StepWithoutChangePoint(pv: PValueOracle, reasons: ReasonsOracle, logSize: int, s: State)
    requires Drift(pv(s.windowSize, s.index)) && !RefineAt(pv, logSize, s).found
    ensures var st := StepAt(pv, reasons, logSize, s);
      var w := Scale(s.windowSize, RefineAt(pv, logSize, s).lastIndex, s.index + 2 * s.windowSize);
      && st.change == None
      && (w < MaxWindowSize ==> st.next == State(s.index + w, w))
      && (w >= MaxWindowSize ==> st.next == State(s.index + w + MaxWindowSize, InitialWindowSize))
  {
  }

  /** A window of size zero is a fixed point of a pass: nothing is reported
      and the state does not change, so main's loop never ends once the
      window has shrunk to zero below the end of the log. */
  lemma ZeroWindowStalls(pv: PValueOracle, reasons: ReasonsOracle, logSize: int, index: int)
    ensures StepAt(pv, reasons, logSize, State(index, 0)) == Step(State(index, 0), None)
  {
    var r := RefineAt(pv, logSize, State(index, 0));
    assert r.evaluated == [] && r.lastIndex == index;
  }

  // Properties of the whole scan.

  /** Every pass adds at most one change point, the scan makes at most
      `fuel` passes, and when it stops early the loop condition has failed. */
  lemma {:induction false} ScanBounds(pv: PValueOracle, reasons: ReasonsOracle, logSize: int, s: State, fuel: nat)
    ensures var scan := ScanFrom(pv, reasons, logSize, s, fuel);
      && |scan.changePoints| <= scan.steps <= fuel
      && (scan.steps < fuel ==> !Continues(logSize, scan.final))
    decreases fuel
  {
    if fuel > 0 && Continues(logSize, s) {
      var st := StepAt(pv, reasons, logSize, s);
      ScanBounds(pv, reasons, logSize, st.next, fuel - 1);
    }
  }

  /** Once the window is zero inside the log the scan uses up all its fuel,
      never moves and reports nothing. */
  lemma {:induction false} ZeroWindowScan(pv: PValueOracle, reasons: ReasonsOracle, logSize: int, index: int, fuel: nat)
    requires index < logSize
    ensures ScanFrom(pv, reasons, logSize, State(index, 0), fuel) == Scan([], State(index, 0), fuel)
    decreases fuel
  {
    if fuel > 0 {
      ZeroWindowStalls(pv, reasons, logSize, index);
      ZeroWindowScan(pv, reasons, logSize, index, fuel - 1);
    }
  }
}
