/**
 Where the text around an occurrence comes from when a replacement has been made: what stands
 between two inserted markers stood in the text before.
 */
module Traces {
  import opened Text

  predicate SameBefore(s: string, p0: nat, r: string, p: nat, marker: string, k: nat) {
    && k <= p0 <= |s| && k <= p <= |r| && s[p0-k..p0] == r[p-k..p]
    && ((k == p0 && k == p) || (k + |marker| <= p && OccursAt(r, marker, p - k - |marker|)))
  }

  /** Before `p` in `r` stands what stands before `p0` in `s`, back to the start of both or to a marker. */
  predicate Before(s: string, p0: nat, r: string, p: nat, marker: string) {
    exists k | 0 <= k <= p :: SameBefore(s, p0, r, p, marker, k)
  }

  predicate SameAfter(s: string, e0: nat, r: string, e: nat, marker: string, l: nat) {
    && e0 + l <= |s| && e + l <= |r| && s[e0..e0+l] == r[e..e+l]
    && ((e0 + l == |s| && e + l == |r|) || OccursAt(r, marker, e + l))
  }

  /** From `e` in `r` on stands what stands from `e0` on in `s`, up to the end of both or to a marker. */
  predicate After(s: string, e0: nat, r: string, e: nat, marker: string) {
    exists l | 0 <= l <= |r| :: SameAfter(s, e0, r, e, marker, l)
  }

  /** The occurrence of `t` at `p0` in `s` is the one at `p` in `r`. */
  predicate Traced(s: string, p0: nat, r: string, p: nat, t: string, marker: string) {
    OccursAt(s, t, p0) && Before(s, p0, r, p, marker) && After(s, p0 + |t|, r, p + |t|, marker)
  }

  /** A marker overlaps the occurrence of `t` at `p`. */
  predicate Touched(r: string, p: nat, t: string, marker: string) {
    exists m | 0 <= m < p + |t| :: OccursAt(r, marker, m) && p < m + |marker|
  }

  /** Two overlapping texts agree where they overlap. */
  lemma OverlapAgrees(r: string, a: string, m: nat, b: string, p: nat)
    requires OccursAt(r, a, m) && OccursAt(r, b, p) && m <= p <= m + |a|
    ensures Comparable(b, a[p-m..])
  {
    var tail, n := a[p-m..], if |b| <= m + |a| - p then |b| else m + |a| - p;
    assert tail[..n] == r[m..m+|a|][p-m..][..n] == r[p..p+n];
    assert b[..n] == r[p..p+|b|][..n] == r[p..p+n];
  }

  lemma SliceBehind(a: string, s: string, i: nat, j: nat)
    requires i <= j <= |s|
    ensures (a + s)[|a|+i..|a|+j] == s[i..j]
  {
  }

  lemma OccursBehind(a: string, s: string, t: string, i: nat)
    ensures OccursAt(s, t, i) <==> OccursAt(a + s, t, |a| + i)
  {
    if i + |t| <= |s| {
      assert (a + s)[|a|+i..|a|+i+|t|] == s[i..i+|t|];
    }
  }

  lemma AfterBehind(a: string, s: string, e0: nat, b: string, r: string, e: nat, marker: string)
    requires After(s, e0, r, e, marker)
    ensures After(a + s, |a| + e0, b + r, |b| + e, marker)
  {
    var l :| 0 <= l <= |r| && SameAfter(s, e0, r, e, marker, l);
    assert (a + s)[|a|+e0..|a|+e0+l] == s[e0..e0+l] && (b + r)[|b|+e..|b|+e+l] == r[e..e+l];
    OccursBehind(b, r, marker, e + l);
    assert SameAfter(a + s, |a| + e0, b + r, |b| + e, marker, l);
  }

  lemma StartBehindByte(x: char, s: string, r: string, k: nat, marker: string)
    requires SameBefore(s, k, r, k, marker, k)
    ensures SameBefore([x] + s, k + 1, [x] + r, k + 1, marker, k + 1)
  {
    assert ([x] + s)[0..k+1] == [x] + s[0..k] && ([x] + r)[0..k+1] == [x] + r[0..k];
  }

  lemma BeforeBehindByte(x: char, s: string, p0: nat, r: string, p: nat, marker: string)
    requires Before(s, p0, r, p, marker)
    ensures Before([x] + s, p0 + 1, [x] + r, p + 1, marker)
  {
    var k :| 0 <= k <= p && SameBefore(s, p0, r, p, marker, k);
    if k == p0 == p {
      StartBehindByte(x, s, r, k, marker);
    } else {
      SliceBehind([x], s, p0 - k, p0);
      SliceBehind([x], r, p - k, p);
      OccursBehind([x], r, marker, p - k - |marker|);
      assert SameBefore([x] + s, p0 + 1, [x] + r, p + 1, marker, k);
    }
  }

  lemma BeforeBehindMarker(pat: string, s: string, p0: nat, r: string, p: nat, marker: string)
    requires Before(s, p0, r, p, marker)
    ensures Before(pat + s, |pat| + p0, marker + r, |marker| + p, marker)
  {
    var k :| 0 <= k <= p && SameBefore(s, p0, r, p, marker, k);
    var a, b := pat + s, marker + r;
    SliceBehind(pat, s, p0 - k, p0);
    SliceBehind(marker, r, p - k, p);
    if k == p0 == p {
      assert b[0..|marker|] == marker;
    } else {
      OccursBehind(marker, r, marker, p - k - |marker|);
    }
    assert SameBefore(a, |pat| + p0, b, |marker| + p, marker, k);
  }

  lemma TouchedBehind(a: string, r: string, p: nat, t: string, marker: string)
    requires Touched(r, p, t, marker)
    ensures Touched(a + r, |a| + p, t, marker)
  {
    var m :| 0 <= m < p + |t| && OccursAt(r, marker, m) && p < m + |marker|;
    OccursBehind(a, r, marker, m);
    assert OccursAt(a + r, marker, |a| + m);
  }

  lemma TracedBehindByte(x: char, s: string, p0: nat, r: string, p: nat, t: string, marker: string)
    requires Traced(s, p0, r, p, t, marker)
    ensures Traced([x] + s, p0 + 1, [x] + r, p + 1, t, marker)
  {
    OccursBehind([x], s, t, p0);
    BeforeBehindByte(x, s, p0, r, p, marker);
    AfterBehind([x], s, p0 + |t|, [x], r, p + |t|, marker);
  }

  lemma TracedBehindMarker(pat: string, s: string, p0: nat, r: string, p: nat, t: string, marker: string)
    requires Traced(s, p0, r, p, t, marker)
    ensures Traced(pat + s, |pat| + p0, marker + r, |marker| + p, t, marker)
  {
    OccursBehind(pat, s, t, p0);
    BeforeBehindMarker(pat, s, p0, r, p, marker);
    AfterBehind(pat, s, p0 + |t|, marker, r, p + |t|, marker);
  }

  lemma {:induction false} AfterReplaced(s: string, pat: string, marker: string)
    requires pat != ""
    ensures After(s, 0, ReplaceAll(s, pat, marker), 0, marker)
    decreases |s|
  {
    var r := ReplaceAll(s, pat, marker);
    if |s| < |pat| {
      assert SameAfter(s, 0, r, 0, marker, |s|);
    } else if pat <= s {
      assert r[0..|marker|] == marker;
      assert SameAfter(s, 0, r, 0, marker, 0);
    } else {
      HeadAndTail(s);
      ReplaceSkip(s[0], s[1..], pat, marker);
      AfterReplaced(s[1..], pat, marker);
      AfterOfByte(s[0], s[1..], r[1..], marker);
    }
  }

  lemma AfterOfByte(x: char, s: string, r: string, marker: string)
    requires After(s, 0, r, 0, marker)
    ensures After([x] + s, 0, [x] + r, 0, marker)
  {
    var l :| 0 <= l <= |r| && SameAfter(s, 0, r, 0, marker, l);
    assert ([x] + s)[0..l+1] == [x] + s[0..l] && ([x] + r)[0..l+1] == [x] + r[0..l];
    OccursBehind([x], r, marker, l);
    assert SameAfter([x] + s, 0, [x] + r, 0, marker, l + 1);
  }

  lemma {:induction false} TracePrefix(s: string, pat: string, marker: string, t: string)
    requires pat != "" && marker != "" && t <= ReplaceAll(s, pat, marker)
    ensures var r := ReplaceAll(s, pat, marker);
      Touched(r, 0, t, marker) || (t <= s && After(s, |t|, r, |t|, marker))
    decreases |s|
  {
    var r := ReplaceAll(s, pat, marker);
    if t == "" {
      AfterReplaced(s, pat, marker);
    } else if |s| < |pat| {
      assert SameAfter(s, |t|, r, |t|, marker, |s| - |t|);
    } else if pat <= s {
      assert r[0..|marker|] == marker;
      assert OccursAt(r, marker, 0);
    } else {
      HeadAndTail(s);
      HeadAndTail(t);
      var r' := ReplaceAll(s[1..], pat, marker);
      ReplaceSkip(s[0], s[1..], pat, marker);
      assert t[1..] <= r';
      TracePrefix(s[1..], pat, marker, t[1..]);
      if Touched(r', 0, t[1..], marker) {
        TouchedSooner(s[0], r', t, marker);
      } else {
        AfterBehind([s[0]], s[1..], |t| - 1, [s[0]], r', |t| - 1, marker);
      }
    }
  }

  lemma TouchedSooner(x: char, r: string, t: string, marker: string)
    requires t != "" && Touched(r, 0, t[1..], marker)
    ensures Touched([x] + r, 0, t, marker)
  {
    var m :| 0 <= m < |t| - 1 && OccursAt(r, marker, m);
    OccursBehind([x], r, marker, m);
    assert OccursAt([x] + r, marker, m + 1);
  }

  /** An occurrence after a replacement overlaps a marker, or it was there before and is not the pattern. */
  lemma {:induction false} Trace(s: string, pat: string, marker: string, t: string, p: nat)
    requires pat != "" && marker != "" && t != "" && OccursAt(ReplaceAll(s, pat, marker), t, p)
    ensures var r := ReplaceAll(s, pat, marker);
      Touched(r, p, t, marker) || (t != pat && exists p0 | 0 <= p0 <= |s| :: Traced(s, p0, r, p, t, marker))
    decreases |s|
  {
    var r := ReplaceAll(s, pat, marker);
    if |s| < |pat| {
      assert SameBefore(s, p, r, p, marker, p);
      assert SameAfter(s, p + |t|, r, p + |t|, marker, |s| - p - |t|);
      assert Traced(s, p, r, p, t, marker);
    } else if pat <= s {
      TraceMatch(s[|pat|..], pat, marker, t, p);
      PrefixSplits(s, pat);
    } else if p == 0 {
      assert t <= r;
      TracePrefix(s, pat, marker, t);
      if !Touched(r, 0, t, marker) {
        assert SameBefore(s, 0, r, 0, marker, 0);
        assert Traced(s, 0, r, 0, t, marker);
      }
    } else {
      TraceSkip(s, pat, marker, t, p);
    }
  }

  lemma {:induction false} TraceMatch(rest: string, pat: string, marker: string, t: string, p: nat)
    requires pat != "" && marker != "" && t != "" && OccursAt(ReplaceAll(pat + rest, pat, marker), t, p)
    ensures var s := pat + rest; var r := ReplaceAll(s, pat, marker);
      Touched(r, p, t, marker) || (t != pat && exists p0 | 0 <= p0 <= |s| :: Traced(s, p0, r, p, t, marker))
    decreases |rest| + |pat|, 0
  {
    var s := pat + rest;
    var r, r' := ReplaceAll(s, pat, marker), ReplaceAll(rest, pat, marker);
    ReplaceMatch(rest, pat, marker);
    if p < |marker| {
      assert r[0..|marker|] == marker;
      assert OccursAt(r, marker, 0);
    } else {
      var p' := p - |marker|;
      OccursBehind(marker, r', t, p');
      Trace(rest, pat, marker, t, p');
      if Touched(r', p', t, marker) {
        TouchedBehind(marker, r', p', t, marker);
      } else {
        var p0 :| 0 <= p0 <= |rest| && Traced(rest, p0, r', p', t, marker);
        TracedBehindMarker(pat, rest, p0, r', p', t, marker);
      }
    }
  }

  lemma {:induction false} TraceSkip(s: string, pat: string, marker: string, t: string, p: nat)
    requires pat != "" && marker != "" && t != "" && OccursAt(ReplaceAll(s, pat, marker), t, p)
    requires |s| >= |pat| && !(pat <= s) && p > 0
    ensures var r := ReplaceAll(s, pat, marker);
      Touched(r, p, t, marker) || (t != pat && exists p0 | 0 <= p0 <= |s| :: Traced(s, p0, r, p, t, marker))
    decreases |s|, 0
  {
    var x, rest := s[0], s[1..];
    var r, r' := ReplaceAll(s, pat, marker), ReplaceAll(rest, pat, marker);
    HeadAndTail(s);
    ReplaceSkip(x, rest, pat, marker);
    OccursBehind([x], r', t, p - 1);
    Trace(rest, pat, marker, t, p - 1);
    if Touched(r', p - 1, t, marker) {
      TouchedBehind([x], r', p - 1, t, marker);
    } else {
      var p0 :| 0 <= p0 <= |rest| && Traced(rest, p0, r', p - 1, t, marker);
      TracedBehindByte(x, rest, p0, r', p - 1, t, marker);
    }
  }
}
