/** The distribution comparator of ProcessDriftDetectionPlugin.java
    (calculatePValue over two lists): positions at which both frequency
    vectors are zero are removed, then the two vectors are handed to the
    G-test. The G-test itself (a call into a statistics library) is a
    parameter of the model. */
module Comparator {
  import opened Wrappers

  /** What the G-test returns: a p-value, the ZeroException it throws when
      a side has no counts, or another exception. */
  datatype GTestOutcome = PValueOf(p: real) | ZeroCounts | OtherFailure

  /** An exception other than ZeroException escapes the comparator; on lists
      of different lengths, reading a detection value past the end throws
      IndexOutOfBoundsException. */
  datatype ComparatorError = GTestFailed | IndexOutOfBounds

  /** A G-test implementation: two count vectors to an outcome. */
  type GTest = (seq<int>, seq<int>) -> GTestOutcome

  predicate BothZero(a: seq<int>, b: seq<int>, k: int)
    requires |a| == |b| && 0 <= k < |a|
  {
    a[k] == 0 && b[k] == 0
  }

  /** No position holds a zero in both vectors. */
  predicate NoZeroPair(a: seq<int>, b: seq<int>)
    requires |a| == |b|
  {
    forall k :: 0 <= k < |a| ==> !BothZero(a, b, k)
  }

  /** The two vectors with the jointly zero positions left out. */
  function Trim(a: seq<int>, b: seq<int>): (r: (seq<int>, seq<int>))
    requires |a| == |b|
    ensures |r.0| == |r.1| <= |a|
  {
    if |a| == 0 then ([], [])
    else
      var rest := Trim(a[1..], b[1..]);
      if a[0] == 0 && b[0] == 0 then rest else ([a[0]] + rest.0, [b[0]] + rest.1)
  }

  /** The vectors read as a list of (reference, detection) pairs. */
  function Zip(a: seq<int>, b: seq<int>): (z: seq<(int, int)>)
    requires |a| == |b|
    ensures |z| == |a| && forall k :: 0 <= k < |a| ==> z[k] == (a[k], b[k])
  {
    if |a| == 0 then [] else [(a[0], b[0])] + Zip(a[1..], b[1..])
  }

  /** The list of pairs without the (0, 0) pairs, the others kept in order. */
  function DropZeroPairs(ps: seq<(int, int)>): seq<(int, int)>
  {
    if ps == [] then []
    else if ps[0] == (0, 0) then DropZeroPairs(ps[1..])
    else [ps[0]] + DropZeroPairs(ps[1..])
  }

  /** How many positions hold a zero in both vectors. */
  function ZeroPairCount(a: seq<int>, b: seq<int>): nat
    requires |a| == |b|
  {
    if |a| == 0 then 0
    else (if a[0] == 0 && b[0] == 0 then 1 else 0) + ZeroPairCount(a[1..], b[1..])
  }

  /** Trimming removes exactly the (0, 0) pairs and keeps every other pair of
      values, in order; what is left has no (0, 0) pair. */
  lemma {:induction false} TrimIsFilter(a: seq<int>, b: seq<int>)
    requires |a| == |b|
    ensures Zip(Trim(a, b).0, Trim(a, b).1) == DropZeroPairs(Zip(a, b))
    ensures NoZeroPair(Trim(a, b).0, Trim(a, b).1)
    ensures |a| - |Trim(a, b).0| == ZeroPairCount(a, b)
  {
    if |a| > 0 {
      TrimIsFilter(a[1..], b[1..]);
      var z := Zip(a, b);
      assert z[1..] == Zip(a[1..], b[1..]);
      var rest := Trim(a[1..], b[1..]);
      if !(a[0] == 0 && b[0] == 0) {
        var x, y := [a[0]] + rest.0, [b[0]] + rest.1;
        assert x[1..] == rest.0 && y[1..] == rest.1;
        assert forall k :: 1 <= k < |x| ==> !BothZero(x, y, k) by {
          forall k | 1 <= k < |x| ensures !BothZero(x, y, k) {
            assert !BothZero(rest.0, rest.1, k - 1);
          }
        }
      }
    }
  }

  /** Vectors without (0, 0) pairs are left as they are, so trimming twice is
      trimming once. */
  lemma {:induction false} TrimNoZeroPair(a: seq<int>, b: seq<int>)
    requires |a| == |b| && NoZeroPair(a, b)
    ensures Trim(a, b) == (a, b)
  {
    if |a| > 0 {
      assert !BothZero(a, b, 0);
      assert NoZeroPair(a[1..], b[1..]) by {
        forall k | 0 <= k < |a| - 1 ensures !BothZero(a[1..], b[1..], k) {
          assert !BothZero(a, b, k + 1);
        }
      }
      TrimNoZeroPair(a[1..], b[1..]);
      assert a == [a[0]] + a[1..] && b == [b[0]] + b[1..];
    }
  }

  lemma TrimIdempotent(a: seq<int>, b: seq<int>)
    requires |a| == |b|
    ensures Trim(Trim(a, b).0, Trim(a, b).1) == Trim(a, b)
  {
    TrimIsFilter(a, b);
    TrimNoZeroPair(Trim(a, b).0, Trim(a, b).1);
  }

  /** Removing one (0, 0) pair does not change the trimmed vectors. */
  lemma {:induction false} TrimRemove(a: seq<int>, b: seq<int>, j: nat)
    requires |a| == |b| && j < |a| && a[j] == 0 && b[j] == 0
    ensures Trim(a[..j] + a[j + 1..], b[..j] + b[j + 1..]) == Trim(a, b)
  {
    if j > 0 {
      TrimRemove(a[1..], b[1..], j - 1);
      assert (a[..j] + a[j + 1..])[1..] == a[1..][..j - 1] + a[1..][j..];
      assert (b[..j] + b[j + 1..])[1..] == b[1..][..j - 1] + b[1..][j..];
    } else {
      assert a[..j] + a[j + 1..] == a[1..];
      assert b[..j] + b[j + 1..] == b[1..];
    }
  }

  function Min(x: int, y: int): int
  {
    if x <= y then x else y
  }

  /** calculatePValue's trimming on lists of any lengths. Both lists are
      trimmed over their common length n; the rest of the longer one is kept.
      A 0 in the reference list at or after n sends the loop to read a
      detection value that is not there. */
  function TrimLists(a: seq<int>, b: seq<int>): Result<(seq<int>, seq<int>), ComparatorError>
  {
    var n := Min(|a|, |b|);
    if 0 in a[n..] then Failure(IndexOutOfBounds)
    else
      var t := Trim(a[..n], b[..n]);
      Success((t.0 + a[n..], t.1 + b[n..]))
  }

  /** On lists of equal length the trimming is Trim, and never fails. */
  lemma TrimListsEqual(a: seq<int>, b: seq<int>)
    requires |a| == |b|
    ensures TrimLists(a, b) == Success(Trim(a, b))
  {
    var n := Min(|a|, |b|);
    assert n == |a|;
    assert a[..n] == a && b[..n] == b;
    assert a[n..] == [] && b[n..] == [];
    var t := Trim(a, b);
    assert t.0 + [] == t.0 && t.1 + [] == t.1;
  }

  /** On lists of different lengths the trimming fails exactly when the
      reference list holds a 0 past the end of the detection list; otherwise
      the unmatched tail of the longer list is kept as it is. */
  lemma TrimListsUneven(a: seq<int>, b: seq<int>)
    ensures TrimLists(a, b).Failure? <==> exists k :: |b| <= k < |a| && a[k] == 0
    ensures TrimLists(a, b).Success? && |a| > |b| ==>
              TrimLists(a, b).value.0[|TrimLists(a, b).value.0| - (|a| - |b|)..] == a[|b|..]
              && TrimLists(a, b).value.1 == Trim(a[..|b|], b).1
    ensures TrimLists(a, b).Success? && |b| > |a| ==>
              TrimLists(a, b).value.1[|TrimLists(a, b).value.1| - (|b| - |a|)..] == b[|a|..]
              && TrimLists(a, b).value.0 == Trim(a, b[..|a|]).0
  {
    var n := Min(|a|, |b|);
    if exists k :: |b| <= k < |a| && a[k] == 0 {
      var k :| |b| <= k < |a| && a[k] == 0;
      assert a[n..][k - n] == 0;
    }
    if 0 in a[n..] {
      var i :| 0 <= i < |a[n..]| && a[n..][i] == 0;
      assert |b| <= n + i < |a| && a[n + i] == 0;
    }
    if |a| > |b| {
      assert b[..n] == b && b[n..] == [];
    }
    if |b| > |a| {
      assert a[..n] == a && a[n..] == [];
    }
  }

  /** Removing one (0, 0) pair inside the common length does not change the
      trimming. */
  lemma TrimListsRemove(a: seq<int>, b: seq<int>, j: nat)
    requires j < |a| && j < |b| && a[j] == 0 && b[j] == 0
    ensures TrimLists(a[..j] + a[j + 1..], b[..j] + b[j + 1..]) == TrimLists(a, b)
  {
    var n := Min(|a|, |b|);
    var a', b' := a[..j] + a[j + 1..], b[..j] + b[j + 1..];
    assert Min(|a'|, |b'|) == n - 1;
    assert a'[n - 1..] == a[n..];
    assert b'[n - 1..] == b[n..];
    assert a'[..n - 1] == a[..n][..j] + a[..n][j + 1..];
    assert b'[..n - 1] == b[..n][..j] + b[..n][j + 1..];
    TrimRemove(a[..n], b[..n], j);
  }

  /** Lists whose common part has no (0, 0) pair and whose reference tail
      has no 0 are left as they are. */
  lemma TrimListsClean(a: seq<int>, b: seq<int>)
    requires forall k :: 0 <= k < |a| ==> a[k] != 0 || (k < |b| && b[k] != 0)
    ensures TrimLists(a, b) == Success((a, b))
  {
    var n := Min(|a|, |b|);
    assert NoZeroPair(a[..n], b[..n]) by {
      forall k | 0 <= k < n ensures !BothZero(a[..n], b[..n], k) {
        assert a[k] != 0 || b[k] != 0;
      }
    }
    TrimNoZeroPair(a[..n], b[..n]);
    assert 0 !in a[n..] by {
      forall i | 0 <= i < |a[n..]| ensures a[n..][i] != 0 {
        assert a[n + i] != 0;
      }
    }
    assert a[..n] + a[n..] == a && b[..n] + b[n..] == b;
  }

  /** The trimming loop of calculatePValue: `remove(j); j--` on both lists
      whenever both hold 0 at j. The detection value is read only when the
      reference value is 0, so a shorter detection list fails only there. */
  method RemoveZeroPairs(references: seq<int>, detections: seq<int>)
    returns (r: Result<(seq<int>, seq<int>), ComparatorError>)
    ensures r == TrimLists(references, detections)
  {
    var referenceValues, detectionValues := references, detections;
    var j := 0;
    while j < |referenceValues|
      invariant 0 <= j <= |referenceValues|
      invariant TrimLists(referenceValues, detectionValues) == TrimLists(references, detections)
      invariant forall k :: 0 <= k < j ==> referenceValues[k] != 0 || (k < |detectionValues| && detectionValues[k] != 0)
      decreases 2 * |referenceValues| - j
    {
      if referenceValues[j] == 0 {
        if j >= |detectionValues| {
          TrimListsUneven(referenceValues, detectionValues);
          return Failure(IndexOutOfBounds);
        }
        if detectionValues[j] == 0 {
          TrimListsRemove(referenceValues, detectionValues, j);
          ghost var oldReferences, oldDetections := referenceValues, detectionValues;
          referenceValues := referenceValues[..j] + referenceValues[j + 1..];
          detectionValues := detectionValues[..j] + detectionValues[j + 1..];
          assert forall k :: 0 <= k < j - 1 ==> referenceValues[k] == oldReferences[k] && detectionValues[k] == oldDetections[k];
          j := j - 1;
        }
      }
      j := j + 1;
    }
    TrimListsClean(referenceValues, detectionValues);
    r := Success((referenceValues, detectionValues));
  }

  /** calculatePValue(List, List): the G-test's p-value on the trimmed
      vectors; exactly 1 when it throws ZeroException; any other exception
      propagates, as does the out-of-bounds read of the trimming loop.
      Vectors of different lengths that survive the trimming reach the
      G-test, whose outcome on them is the oracle's. */
  method ComparisonPValue(references: seq<int>, detections: seq<int>, gtest: GTest)
    returns (r: Result<real, ComparatorError>)
    ensures match TrimLists(references, detections)
            case Failure(e) => r == Failure(e)
            case Success(t) =>
              match gtest(t.0, t.1)
              case PValueOf(p) => r == Success(p)
              case ZeroCounts => r == Success(1.0)
              case OtherFailure => r == Failure(GTestFailed)
  {
    var trimmed := RemoveZeroPairs(references, detections);
    match trimmed
    case Failure(e) => r := Failure(e);
    case Success(t) =>
      match gtest(t.0, t.1)
      case PValueOf(p) => r := Success(p);
      case ZeroCounts => r := Success(1.0);
      case OtherFailure => r := Failure(GTestFailed);
  }
}
