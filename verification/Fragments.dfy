/**
 When a secret is replaced as a whole.  Secrets are replaced longest first, so that one that
 contains another leaves no fragment; overlapping occurrences can.
 */
module Fragments {
  import opened Text
  import opened Scrub
  import opened Traces

  /** An occurrence of `t` lies across the byte position `cut`. */
  predicate Crosses(s: string, t: string, cut: nat) {
    exists i | 0 <= i < cut :: OccursAt(s, t, i) && cut < i + |t|
  }

  lemma OverlapClashes(r: string, t: string, p: nat, m: nat)
    requires OccursAt(r, t, p) && OccursAt(r, REDACTED, m) && p < m + |REDACTED| && m < p + |t|
    ensures Clash(t)
  {
    if p >= m {
      OverlapAgrees(r, REDACTED, m, t, p);
    } else {
      OverlapAgrees(r, t, p, REDACTED, m);
    }
  }

  lemma StartsBeforeCut(x: string, y: string, pat: string)
    requires x != "" && pat <= x + y && !Crosses(x + y, pat, |x|)
    ensures pat <= x
  {
    assert OccursAt(x + y, pat, 0);
  }

  lemma CrossesBehind(a: string, s: string, t: string, cut: nat)
    requires Crosses(s, t, cut)
    ensures Crosses(a + s, t, |a| + cut)
  {
    var i :| 0 <= i < cut && OccursAt(s, t, i) && cut < i + |t|;
    OccursBehind(a, s, t, i);
    assert OccursAt(a + s, t, |a| + i);
  }

  /** Replacing works on both sides of a position that no occurrence lies across. */
  lemma {:induction false} ReplaceParts(x: string, y: string, pat: string)
    requires pat != "" && !Crosses(x + y, pat, |x|)
    ensures ReplaceAll(x + y, pat, REDACTED) == ReplaceAll(x, pat, REDACTED) + ReplaceAll(y, pat, REDACTED)
    decreases |x|
  {
    if x == "" {
      assert x + y == y;
    } else if pat <= x {
      var rest := x[|pat|..];
      PrefixSplits(x, pat);
      Assoc(pat, rest, y);
      if Crosses(rest + y, pat, |rest|) { CrossesBehind(pat, rest + y, pat, |rest|); }
      ReplaceMatch(rest + y, pat, REDACTED);
      ReplaceMatch(rest, pat, REDACTED);
      ReplaceParts(rest, y, pat);
      Assoc(REDACTED, ReplaceAll(rest, pat, REDACTED), ReplaceAll(y, pat, REDACTED));
    } else {
      var rest := x[1..];
      HeadAndTail(x);
      Assoc([x[0]], rest, y);
      if Crosses(rest + y, pat, |rest|) { CrossesBehind([x[0]], rest + y, pat, |rest|); }
      if pat <= x + y { StartsBeforeCut(x, y, pat); }
      ReplaceSkip(x[0], rest + y, pat, REDACTED);
      ReplaceSkip(x[0], rest, pat, REDACTED);
      ReplaceParts(rest, y, pat);
      Assoc([x[0]], ReplaceAll(rest, pat, REDACTED), ReplaceAll(y, pat, REDACTED));
    }
  }

  lemma OccursAhead(x: string, y: string, t: string, i: nat)
    requires OccursAt(x, t, i)
    ensures OccursAt(x + y, t, i)
  {
    assert (x + y)[i..i+|t|] == x[i..i+|t|];
  }

  lemma TracedEnd(x: string, p0: nat, x': string, i: nat, t: string)
    requires Traced(x, p0, x', i, t, REDACTED) && i + |t| == |x'|
    ensures |t| <= |x| && x[|x|-|t|..] == t
  {
    var l :| 0 <= l <= |x'| && SameAfter(x, p0 + |t|, x', i + |t|, REDACTED, l);
  }

  lemma TouchedClashes(x': string, y': string, i: nat, n: nat, t: string)
    requires n <= |t| && OccursAt(x' + y', t, i) && Touched(x', i, t[..n], REDACTED)
    ensures Clash(t)
  {
    var m :| 0 <= m < i + n && OccursAt(x', REDACTED, m) && i < m + |REDACTED|;
    OccursAhead(x', y', REDACTED, m);
    OverlapClashes(x' + y', t, i, m);
  }

  lemma OldEnd(x: string, pat: string, y': string, t: string, n: nat)
    requires pat != "" && n < |t| && !Clash(t)
    requires var x' := ReplaceAll(x, pat, REDACTED); 0 < n <= |x'| && OccursAt(x' + y', t, |x'| - n)
    ensures n <= |x| && x[|x|-n..] == t[..n]
  {
    var x' := ReplaceAll(x, pat, REDACTED);
    var i := |x'| - n;
    assert t[..n] == (x' + y')[i..i+|t|][..n] == x'[i..i+n];
    Trace(x, pat, REDACTED, t[..n], i);
    if Touched(x', i, t[..n], REDACTED) {
      TouchedClashes(x', y', i, n, t);
      assert false;
    }
    var p0 :| 0 <= p0 <= |x| && Traced(x, p0, x', i, t[..n], REDACTED);
    TracedEnd(x, p0, x', i, t[..n]);
  }

  lemma OldStart(x': string, y: string, pat: string, t: string, n: nat)
    requires pat != "" && n < |t| && !Clash(t)
    requires n <= |x'| && OccursAt(x' + ReplaceAll(y, pat, REDACTED), t, |x'| - n)
    ensures t[n..] <= y
  {
    var y' := ReplaceAll(y, pat, REDACTED);
    var i := |x'| - n;
    assert t[n..] == (x' + y')[i..i+|t|][n..] == y'[..|t|-n];
    TracePrefix(y, pat, REDACTED, t[n..]);
    if Touched(y', 0, t[n..], REDACTED) {
      var m :| 0 <= m < |t| - n && OccursAt(y', REDACTED, m);
      OccursBehind(x', y', REDACTED, m);
      OverlapClashes(x' + y', t, i, |x'| + m);
      assert false;
    }
  }

  lemma JoinCrosses(x: string, y: string, t: string, n: nat)
    requires 0 < n < |t| && n <= |x| && x[|x|-n..] == t[..n] && t[n..] <= y
    ensures Crosses(x + y, t, |x|)
  {
    var i := |x| - n;
    assert (x + y)[i..i+|t|] == x[i..] + y[..|t|-n] == t[..n] + t[n..] == t;
    assert OccursAt(x + y, t, i);
  }

  /** A replacement puts no other text across the position, unless the text clashes with the marker. */
  lemma ReplacingCrossesNothing(x: string, y: string, pat: string, t: string)
    requires pat != "" && !Clash(t) && !Crosses(x + y, t, |x|)
    ensures var x', y' := ReplaceAll(x, pat, REDACTED), ReplaceAll(y, pat, REDACTED); !Crosses(x' + y', t, |x'|)
  {
    var x', y' := ReplaceAll(x, pat, REDACTED), ReplaceAll(y, pat, REDACTED);
    if Crosses(x' + y', t, |x'|) {
      var i :| 0 <= i < |x'| && OccursAt(x' + y', t, i) && |x'| < i + |t|;
      var n := |x'| - i;
      OldEnd(x, pat, y', t, n);
      OldStart(x', y, pat, t, n);
      JoinCrosses(x, y, t, n);
    }
  }

  ghost predicate NoneCrosses(secrets: seq<string>, s: string, cut: nat) {
    forall t | t in secrets :: !Crosses(s, t, cut)
  }

  /** None of the secrets clashes with the marker. */
  ghost predicate Peaceful(secrets: seq<string>) {
    forall i | 0 <= i < |secrets| :: secrets[i] != "" && !Clash(secrets[i])
  }

  lemma {:induction false} ReplaceEachParts(secrets: seq<string>, x: string, y: string)
    requires Peaceful(secrets) && NoneCrosses(secrets, x + y, |x|)
    ensures ReplaceEach(secrets, x + y) == ReplaceEach(secrets, x) + ReplaceEach(secrets, y)
  {
    if secrets != [] {
      var pat := secrets[0];
      ReplaceParts(x, y, pat);
      forall t | t in secrets[1..] ensures !Crosses(ReplaceAll(x, pat, REDACTED) + ReplaceAll(y, pat, REDACTED), t,
                                                    |ReplaceAll(x, pat, REDACTED)|) {
        ReplacingCrossesNothing(x, y, pat, t);
      }
      ReplaceEachParts(secrets[1..], ReplaceAll(x, pat, REDACTED), ReplaceAll(y, pat, REDACTED));
    }
  }

  /******* Longest first *******/

  /** A text that cannot clash is not a piece of the marker. */
  lemma MarkerHasNone(t: string)
    requires !Clash(t)
    ensures !Contains(REDACTED, t)
  {
    assert !Comparable(t, REDACTED[0..]);
    forall i: nat | i <= |REDACTED| ensures !OccursAt(REDACTED, t, i) {
      if i < |REDACTED| { assert !Comparable(t, REDACTED[i..]); }
    }
  }

  lemma NotContainedInNoLonger(s: string, t: string)
    requires |t| >= |s| && s != t
    ensures !Contains(s, t)
  {
    assert s[0..|s|] == s;
  }

  lemma {:induction false} SecretBecomesMarker(secrets: seq<string>, secret: string)
    requires Peaceful(secrets) && LongestFirst(secrets) && secret in secrets
    ensures ReplaceEach(secrets, secret) == REDACTED
  {
    if secret == secrets[0] {
      ReplaceWhole(secret);
      forall s | s in secrets[1..] ensures !Contains(REDACTED, s) {
        MarkerHasNone(s);
      }
      ReplaceEachNothing(secrets[1..], REDACTED);
    } else {
      var k :| 0 < k < |secrets| && secrets[k] == secret;
      NotContainedInNoLonger(secret, secrets[0]);
      ReplaceNothing(secret, secrets[0], REDACTED);
      assert secrets[1..][k-1] == secret;
      SecretBecomesMarker(secrets[1..], secret);
    }
  }

  lemma NoneCrossesMarker(secrets: seq<string>, x: string, y: string)
    requires Peaceful(secrets)
    ensures NoneCrosses(secrets, x + REDACTED + y, |x|)
    ensures NoneCrosses(secrets, x + REDACTED + y, |x| + |REDACTED|)
  {
    var s := x + REDACTED + y;
    assert s[|x|..|x|+|REDACTED|] == REDACTED;
    forall t, i: nat | t in secrets && OccursAt(s, t, i) && |x| < i + |t| && i < |x| + |REDACTED| ensures false {
      OverlapClashes(s, t, i, |x|);
    }
  }

  lemma NoneCrossesPrefix(secrets: seq<string>, x: string, y: string, cut: nat)
    requires NoneCrosses(secrets, x + y, cut)
    ensures NoneCrosses(secrets, x, cut)
  {
    forall t | t in secrets ensures !Crosses(x, t, cut) {
      if Crosses(x, t, cut) {
        var i :| 0 <= i < cut && OccursAt(x, t, i) && cut < i + |t|;
        OccursAhead(x, y, t, i);
      }
    }
  }

  /** The pieces around two positions that nothing lies across are replaced separately. */
  lemma ThreeParts(secrets: seq<string>, x: string, mid: string, y: string)
    requires Peaceful(secrets) && NoneCrosses(secrets, x + mid + y, |x|)
    requires NoneCrosses(secrets, x + mid + y, |x| + |mid|)
    ensures ReplaceEach(secrets, x + mid + y)
         == ReplaceEach(secrets, x) + ReplaceEach(secrets, mid) + ReplaceEach(secrets, y)
  {
    ReplaceEachParts(secrets, x + mid, y);
    NoneCrossesPrefix(secrets, x + mid, y, |x|);
    ReplaceEachParts(secrets, x, mid);
  }

  lemma {:induction false} ReplaceEachAppend(first: seq<string>, rest: seq<string>, s: string)
    requires AllNonEmpty(first) && AllNonEmpty(rest)
    ensures AllNonEmpty(first + rest) && ReplaceEach(first + rest, s) == ReplaceEach(rest, ReplaceEach(first, s))
  {
    if first == [] {
      assert first + rest == rest;
    } else {
      assert (first + rest)[1..] == first[1..] + rest;
      ReplaceEachAppend(first[1..], rest, ReplaceAll(s, first[0], REDACTED));
    }
  }

  lemma MarkerStays(secrets: seq<string>)
    requires Peaceful(secrets)
    ensures ReplaceEach(secrets, REDACTED) == REDACTED
  {
    forall s | s in secrets ensures !Contains(REDACTED, s) {
      MarkerHasNone(s);
    }
    ReplaceEachNothing(secrets, REDACTED);
  }

  /**
   Longest first: when no occurrence of a secret or of one replaced before it reaches across either
   end of an occurrence of the secret, that occurrence leaves exactly one marker, and what stands on
   either side is scrubbed as if it stood alone.
   */
  lemma SecretIsReplacedWhole(secrets: seq<string>, k: nat, a: string, b: string)
    requires Peaceful(secrets) && LongestFirst(secrets) && k < |secrets|
    requires NoneCrosses(secrets[..k+1], a + secrets[k] + b, |a|)
    requires NoneCrosses(secrets[..k+1], a + secrets[k] + b, |a| + |secrets[k]|)
    ensures ReplaceEach(secrets, a + secrets[k] + b) == ReplaceEach(secrets, a) + REDACTED + ReplaceEach(secrets, b)
  {
    var first, rest := secrets[..k+1], secrets[k+1..];
    assert secrets == first + rest && first[k] == secrets[k];
    ThreeParts(first, a, secrets[k], b);
    SecretBecomesMarker(first, secrets[k]);
    var a', b' := ReplaceEach(first, a), ReplaceEach(first, b);
    NoneCrossesMarker(rest, a', b');
    ThreeParts(rest, a', REDACTED, b');
    MarkerStays(rest);
    ReplaceEachAppend(first, rest, a + secrets[k] + b);
    ReplaceEachAppend(first, rest, a);
    ReplaceEachAppend(first, rest, b);
  }

  /******* Overlapping secrets *******/

  lemma TooShortIsKept(s: string, pat: string)
    requires |s| < |pat|
    ensures ReplaceAll(s, pat, REDACTED) == s
  {
  }

  lemma ReplaceOverlapped(a: string, b: string, c: string)
    requires |b| > |REDACTED| && |a| >= |c| && a + b != "" && b + c != ""
    ensures ReplaceEach([a + b, b + c], a + b + c) == REDACTED + c
  {
    ReplaceMatch(c, a + b, REDACTED);
    TooShortIsKept(c, a + b);
    TooShortIsKept(REDACTED + c, b + c);
    ReplaceEachTwo(a + b, b + c, a + b + c);
  }

  /** A secret whose occurrence an earlier one overlaps leaves the rest of itself behind. */
  lemma OverlapLeavesFragment(a: string, b: string, c: string)
    requires |b| > |REDACTED| && |a| >= |c| && WorthKeeping(a + b) && WorthKeeping(b + c)
    ensures KeptList([a + b, b + c]) && Contains(a + b + c, b + c)
    ensures ReplaceEach([a + b, b + c], a + b + c) == REDACTED + c
  {
    PairIsKept(a + b, b + c);
    ReplaceOverlapped(a, b, c);
    Assoc(a, b, c);
    ContainsAtEnd(a, b + c);
  }
}
