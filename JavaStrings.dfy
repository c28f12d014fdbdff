/** The few java.lang.String operations the drift detector relies on,
    over Dafny strings (sequences of characters). */
module JavaStrings {

  /** s begins with t. */
  predicate StartsWith(s: string, t: string) {
    |t| <= |s| && s[..|t|] == t
  }

  /** String.contains: t occurs somewhere in s. */
  predicate Contains(s: string, t: string)
    decreases |s|
  {
    StartsWith(s, t) || (|s| > 0 && Contains(s[1..], t))
  }

  /** t is the slice of s that starts at i. */
  predicate OccursAt(s: string, t: string, i: int)
  {
    0 <= i <= |s| - |t| && s[i..i + |t|] == t
  }

  /** Contains holds exactly when t is the slice of s at some position. */
  lemma {:induction false} ContainsOccurrence(s: string, t: string)
    ensures Contains(s, t) <==> exists i :: OccursAt(s, t, i)
    decreases |s|
  {
    if StartsWith(s, t) {
      assert OccursAt(s, t, 0);
    } else if |s| > 0 {
      ContainsOccurrence(s[1..], t);
      if Contains(s[1..], t) {
        var i :| OccursAt(s[1..], t, i);
        assert s[1..][i..i + |t|] == s[i + 1..i + 1 + |t|];
        assert OccursAt(s, t, i + 1);
      }
      if exists i :: OccursAt(s, t, i) {
        var i :| OccursAt(s, t, i);
        assert i != 0;
        assert s[1..][i - 1..i - 1 + |t|] == s[i..i + |t|];
        assert OccursAt(s[1..], t, i - 1);
      }
    } else {
      assert forall i :: !OccursAt(s, t, i);
    }
  }

  /** String.indexOf(char): the position of the first c in s, or -1. */
  function IndexOf(s: string, c: char): (r: int)
    ensures -1 <= r < |s|
    ensures r == -1 <==> c !in s
    ensures r >= 0 ==> s[r] == c && c !in s[..r]
  {
    if |s| == 0 then -1
    else if s[0] == c then 0
    else
      var k := IndexOf(s[1..], c);
      assert s == [s[0]] + s[1..];
      if k == -1 then -1 else
        assert s[..k + 1] == [s[0]] + s[1..][..k];
        k + 1
  }

  /** String.replace(target, replacement): every occurrence of t, scanned
      left to right without overlap, is replaced by rep. */
  function ReplaceAll(s: string, t: string, rep: string): (r: string)
    requires |t| > 0
    ensures !Contains(s, t) ==> r == s
    ensures rep == t ==> r == s
    ensures |rep| <= |t| ==> |r| <= |s|
    decreases |s|
  {
    if |s| == 0 then []
    else if StartsWith(s, t) then rep + ReplaceAll(s[|t|..], t, rep)
    else [s[0]] + ReplaceAll(s[1..], t, rep)
  }

  /** Stripping a prefix t from t + x, where x holds no t, gives back x. */
  lemma StripPrefix(t: string, x: string)
    requires |t| > 0 && !Contains(x, t)
    ensures ReplaceAll(t + x, t, "") == x
  {
    assert StartsWith(t + x, t);
    assert (t + x)[|t|..] == x;
  }

  /** A string contains itself after any prefix. */
  lemma {:induction false} ContainsSuffix(p: string, t: string, q: string)
    ensures Contains(p + t + q, t)
    decreases |p|
  {
    if |p| == 0 {
      assert p + t + q == t + q;
      assert (t + q)[..|t|] == t;
    } else {
      ContainsSuffix(p[1..], t, q);
      assert (p + t + q)[1..] == p[1..] + t + q;
    }
  }

  /** A prefix that does not hold the first character of t adds no
      occurrence of t. */
  lemma {:induction false} ContainsAfter(p: string, a: string, t: string)
    requires |t| > 0 && t[0] !in p
    ensures Contains(p + a, t) <==> Contains(a, t)
    decreases |p|
  {
    if |p| > 0 {
      assert (p + a)[0] == p[0];
      assert (p + a)[1..] == p[1..] + a;
      ContainsAfter(p[1..], a, t);
    } else {
      assert p + a == a;
    }
  }
}
