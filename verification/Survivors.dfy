/**
 Which secrets can survive scrubbing: the three phases of the scrubber together, over every
 configuration and every message.
 */
module Survivors {
  import opened Text
  import opened Scrub
  import opened Traces
  import opened Fragments

  /******* After replacing and folding *******/

  /** The secret is still there when every secret has been replaced and white space folded. */
  ghost predicate OutlivesFold(t: string, secrets: seq<string>, msg: string) {
    KeptList(secrets) && t in secrets && Contains(Fold(ReplaceEach(secrets, msg)), t)
  }

  ghost predicate Survives(t: string, secrets: seq<string>, msg: string) {
    KeptList(secrets) && t in secrets && Contains(Cleaned(secrets, msg), t)
  }

  lemma PaddedHides(core: string, e: char, t: string)
    requires t != "" && e != t[0] && e != t[|t|-1] && !Contains(core, t)
    ensures !Contains([e] + core + [e], t)
  {
    var s := [e] + core + [e];
    forall i: nat | i <= |s| ensures !OccursAt(s, t, i) {
      if i + |t| <= |s| {
        assert s[i..i+|t|][0] == s[i] && s[i..i+|t|][|t|-1] == s[i+|t|-1];
        if 0 < i && i + |t| < |s| {
          assert s[i..i+|t|] == core[i-1..i-1+|t|];
          assert !OccursAt(core, t, i - 1);
        }
      }
    }
  }

  lemma NothingCrossesByte(s: string, t: string, cut: nat, at: nat)
    requires at < |s| && s[at] !in t && (at == cut || at + 1 == cut)
    ensures !Crosses(s, t, cut)
  {
    if Crosses(s, t, cut) {
      var i :| 0 <= i < cut && OccursAt(s, t, i) && cut < i + |t|;
      CharInside(s, t, i, at);
    }
  }

  /** Replacing inside a padding that the pattern lacks. */
  lemma ReplaceInPadding(core: string, e: char, pat: string)
    requires pat != "" && e !in pat
    ensures ReplaceAll([e] + core + [e], pat, REDACTED) == [e] + ReplaceAll(core, pat, REDACTED) + [e]
  {
    NothingCrossesByte([e] + core + [e], pat, |core| + 1, |core| + 1);
    ReplaceParts([e] + core, [e], pat);
    NothingCrossesByte([e] + core, pat, 1, 0);
    ReplaceParts([e], core, pat);
    assert ReplaceAll([e][1..], pat, REDACTED) == "" && [e] + "" == [e];
  }

  lemma ClashReplaced(t: string, p: string, q: string, c: char, e: char)
    requires t != "" && |p| < |t| && |q| < |t| && c != t[0] && c != t[|t|-1] && (p != "" ==> p[|p|-1] != c)
    requires e != t[0] && e != t[|t|-1] && e != c
    ensures ReplaceEach([t, Run(c, |t|)], [e] + (p + Run(c, |t|) + q) + [e]) == [e] + (p + REDACTED + q) + [e]
  {
    var pat := Run(c, |t|);
    var core := p + pat + q;
    var msg := [e] + core + [e];
    RunHides(p, c, |t|, q, t);
    PaddedHides(core, e, t);
    ReplaceNothing(msg, t, REDACTED);
    ReplaceRun(p, pat, q, REDACTED);
    ReplaceInPadding(core, e, pat);
    ReplaceEachTwo(t, pat, msg);
  }

  lemma WithRunIsKept(t: string, c: char)
    requires WorthKeeping(t) && 'a' <= c <= 'd'
    ensures KeptList([t, Run(c, |t|)])
  {
    RunIsWorthKeeping(c, |t|);
    PairIsKept(t, Run(c, |t|));
  }

  /** A clashing secret comes back when a secret after it is replaced. */
  lemma ClashSurvives(t: string) returns (secrets: seq<string>, msg: string)
    requires WorthKeeping(t) && SingleSpaced(t) && Clash(t)
    ensures OutlivesFold(t, secrets, msg) && |Fold(ReplaceEach(secrets, msg))| <= |t| + 11
  {
    var p, q, at := AroundMarker(t, REDACTED);
    var last := if p == "" then t[0] else p[|p|-1];
    var c := UnusedLetter(t[0], t[|t|-1], last);
    var e := UnusedLetter(t[0], t[|t|-1], c);
    secrets, msg := [t, Run(c, |t|)], [e] + (p + Run(c, |t|) + q) + [e];
    WithRunIsKept(t, c);
    ClashReplaced(t, p, q, c, e);
    ClashIsFolded(t, p, q, e);
    ContainsAt(p + REDACTED + q, t, at);
    ContainsWiden([e], p + REDACTED + q, [e], t);
    assert secrets[0] == t;
  }

  lemma ClashIsFolded(t: string, p: string, q: string, e: char)
    requires SingleSpaced(t) && OccursAt(t, p, 0) && |q| <= |t| && OccursAt(t, q, |t| - |q|) && 'a' <= e <= 'z'
    ensures Fold([e] + (p + REDACTED + q) + [e]) == [e] + (p + REDACTED + q) + [e]
  {
    PieceOfSingleSpaced(t, p, 0);
    PieceOfSingleSpaced(t, q, |t| - |q|);
    VisibleIsSingleSpaced(REDACTED);
    SingleSpacedBefore(p, REDACTED);
    SingleSpacedAfter(p + REDACTED, q);
    PaddedIsFolded(p + REDACTED + q, e);
    FoldedIsFixed([e] + (p + REDACTED + q) + [e]);
  }

  lemma LoneIsKept(t: string)
    requires WorthKeeping(t)
    ensures KeptList([t]) && t in [t]
  {
  }

  /** How many bytes must stand around the text for folding to keep it whole. */
  function Edges(t: string): nat
    requires t != ""
  {
    (if t[0] == ' ' then 1 else 0) + (if t[|t|-1] == ' ' then 1 else 0)
  }

  /** The text with a letter at each end that is a space. */
  function Edged(t: string): (u: string)
    requires t != ""
    ensures |u| == |t| + Edges(t)
  {
    (if t[0] == ' ' then "x" else "") + t + (if t[|t|-1] == ' ' then "x" else "")
  }

  lemma LetterBefore(t: string)
    requires t != "" && SingleSpaced(t)
    ensures var u := (if t[0] == ' ' then "x" else "") + t;
      SingleSpaced(u) && u[0] != ' ' && u[|u|-1] == t[|t|-1]
  {
    if t[0] == ' ' {
      VisibleIsSingleSpaced("x");
      SingleSpacedAfter("x", t);
      assert ("x" + t)[|t|] == t[|t|-1];
    } else {
      assert "" + t == t;
    }
  }

  lemma LetterAfter(t: string)
    requires t != "" && SingleSpaced(t) && t[0] != ' '
    ensures Folded(t + (if t[|t|-1] == ' ' then "x" else ""))
  {
    VisibleIsSingleSpaced("x");
    SingleSpacedBefore(t, "x");
    assert t + "" == t;
  }

  lemma EdgedIsFolded(t: string)
    requires t != "" && SingleSpaced(t)
    ensures Folded(Edged(t)) && Contains(Edged(t), t)
  {
    var left, right := if t[0] == ' ' then "x" else "", if t[|t|-1] == ' ' then "x" else "";
    LetterBefore(t);
    LetterAfter(left + t);
    ContainsMiddle(left, t, right);
  }

  /** A secret with a space comes back when folding writes the space. */
  lemma SpacedSurvives(t: string) returns (secrets: seq<string>, msg: string)
    requires WorthKeeping(t) && SingleSpaced(t) && ' ' in t
    ensures OutlivesFold(t, secrets, msg) && |Fold(ReplaceEach(secrets, msg))| == |t| + Edges(t)
  {
    EdgedIsFolded(t);
    secrets, msg := [t], WithGaps(Edged(t), '\t');
    FoldWithGaps(Edged(t), '\t');
    TabbedHides(Edged(t), t);
    ReplaceNothing(msg, t, REDACTED);
    ReplaceEachOne(t, msg);
    LoneIsKept(t);
  }

  lemma DottedIsFolded(t: string, c: char, y: string, n: nat)
    requires SingleSpaced(t) && ' ' !in t && OccursAt(t, y, 0) && 'a' <= c <= 'd'
    ensures Folded(Run(c, n) + y + "xxxx")
  {
    PieceOfSingleSpaced(t, y, 0);
    if n > 0 {
      BetweenLettersIsFolded(Run(c, n), y, "xxxx");
    } else {
      assert Run(c, n) + y == y && forall i | 0 <= i < |y| :: y[i] == t[i];
      VisibleIsSingleSpaced("xxxx");
      SingleSpacedBefore(y, "xxxx");
    }
  }

  lemma UnseenIsCut(t: string, msg: string)
    requires t != "" && !Contains(msg, t) && Folded(msg)
    ensures Cleaned([t], msg) == Truncated(msg, MAX_ERROR_MESSAGE_BYTES)
  {
    ReplaceNothing(msg, t, REDACTED);
    ReplaceEachOne(t, msg);
    FoldedIsFixed(msg);
  }

  /** A secret that ends in dots comes back when the ellipsis supplies them. */
  lemma DottedSurvives(t: string) returns (secrets: seq<string>, msg: string)
    requires WorthKeeping(t) && SingleSpaced(t) && ' ' !in t && CutExposes(t, MAX_ERROR_MESSAGE_BYTES)
    ensures Survives(t, secrets, msg)
  {
    var c, y;
    msg, c, y := CutExposesSome(t, MAX_ERROR_MESSAGE_BYTES);
    secrets := [t];
    LoneIsKept(t);
    DottedIsFolded(t, c, y, MAX_ERROR_MESSAGE_BYTES - 3 - |y|);
    UnseenIsCut(t, msg);
  }

  lemma OutliversAre(t: string, secrets: seq<string>, msg: string)
    requires t != "" && OutlivesFold(t, secrets, msg)
    ensures SingleSpaced(t) && (Clash(t) || ' ' in t)
  {
    var replaced := ReplaceEach(secrets, msg);
    var f := Fold(replaced);
    FoldIsFolded(replaced);
    var i: nat :| i <= |f| && OccursAt(f, t, i);
    PieceOfSingleSpaced(f, t, i);
    if !Clash(t) {
      ReplaceEachRemoves(secrets, msg, t);
      if ' ' !in t { FoldNeverCreates(replaced, t); }
    }
  }

  /** Exactly which secrets can outlive the replacing and the folding of some message under some configuration. */
  lemma OutlivesFoldIff(t: string)
    requires WorthKeeping(t)
    ensures (exists secrets, msg :: OutlivesFold(t, secrets, msg)) <==> SingleSpaced(t) && (Clash(t) || ' ' in t)
  {
    if SingleSpaced(t) && Clash(t) {
      var secrets, msg := ClashSurvives(t);
    } else if SingleSpaced(t) && ' ' in t {
      var secrets, msg := SpacedSurvives(t);
    } else {
      forall secrets, msg ensures !OutlivesFold(t, secrets, msg) {
        if OutlivesFold(t, secrets, msg) { OutliversAre(t, secrets, msg); }
      }
    }
  }

  lemma EdgesInside(c: string, t: string, i: nat)
    requires Folded(c) && t != "" && OccursAt(c, t, i)
    ensures |t| + Edges(t) <= |c|
  {
    assert c[i] == t[0] && c[i+|t|-1] == t[|t|-1];
  }

  lemma SurvivorsAre(t: string, secrets: seq<string>, msg: string)
    requires t != "" && Survives(t, secrets, msg)
    ensures SingleSpaced(t) && |t| + Edges(t) <= MAX_ERROR_MESSAGE_BYTES
    ensures Clash(t) || ' ' in t || CutExposes(t, MAX_ERROR_MESSAGE_BYTES)
  {
    var folded := Fold(ReplaceEach(secrets, msg));
    var c := Cleaned(secrets, msg);
    FoldIsFolded(ReplaceEach(secrets, msg));
    TruncatedIsFolded(folded, MAX_ERROR_MESSAGE_BYTES);
    var i: nat :| i <= |c| && OccursAt(c, t, i);
    PieceOfSingleSpaced(c, t, i);
    EdgesInside(c, t, i);
    if !CutExposes(t, MAX_ERROR_MESSAGE_BYTES) {
      CutNeverCreates(folded, MAX_ERROR_MESSAGE_BYTES, t);
      OutliversAre(t, secrets, msg);
    }
  }

  lemma ShortIsNotCut(t: string, secrets: seq<string>, msg: string)
    requires OutlivesFold(t, secrets, msg) && |Fold(ReplaceEach(secrets, msg))| <= MAX_ERROR_MESSAGE_BYTES
    ensures Survives(t, secrets, msg)
  {
  }

  /** A secret that only the marker can bring back. */
  predicate OnlyClashes(t: string) {
    t != "" && SingleSpaced(t) && ' ' !in t && !CutExposes(t, MAX_ERROR_MESSAGE_BYTES)
  }

  /******* How a clash fits *******/

  /**
   The clash leaves room for the part of the marker that lies outside the secret: the marker's
   beginning must fit before it; its end must fit after it, unless the cut removes it.
   */
  predicate ClashFits(t: string) {
    || (exists i | 0 <= i < |REDACTED| :: Comparable(t, REDACTED[i..]) && i + |t| <= MAX_ERROR_MESSAGE_BYTES)
    || (exists j | 0 <= j < |t| :: Comparable(t[j..], REDACTED)
          && (|t| + 3 <= MAX_ERROR_MESSAGE_BYTES || j + |REDACTED| <= MAX_ERROR_MESSAGE_BYTES))
  }

  lemma BareClash(t: string, p: string, q: string) returns (secrets: seq<string>, msg: string)
    requires WorthKeeping(t) && OnlyClashes(t) && |p| < |t| && |q| < |t|
    requires OccursAt(t, p, 0) && OccursAt(t, q, |t| - |q|)
    ensures KeptList(secrets) && t in secrets && Fold(ReplaceEach(secrets, msg)) == p + REDACTED + q
  {
    var last := if p == "" then t[0] else p[|p|-1];
    var c := UnusedLetter(t[0], t[|t|-1], last);
    var pat := Run(c, |t|);
    secrets, msg := [t, pat], p + pat + q;
    WithRunIsKept(t, c);
    assert secrets[0] == t;
    RunHides(p, c, |t|, q, t);
    ReplaceNothing(msg, t, REDACTED);
    ReplaceRun(p, pat, q, REDACTED);
    ReplaceEachTwo(t, pat, msg);
    BareIsFolded(t, p, q);
  }

  lemma PieceIsSpaceless(t: string, p: string, at: nat)
    requires OccursAt(t, p, at) && ' ' !in t
    ensures ' ' !in p
  {
    forall i | 0 <= i < |p| ensures p[i] != ' ' {
      assert t[at..at+|p|][i] == t[at+i];
    }
  }

  lemma AroundMarkerIsFolded(p: string, q: string)
    requires SingleSpaced(p) && SingleSpaced(q) && ' ' !in p && ' ' !in q
    ensures Folded(p + REDACTED + q)
  {
    VisibleIsSingleSpaced(REDACTED);
    SingleSpacedBefore(p, REDACTED);
    SingleSpacedAfter(p + REDACTED, q);
  }

  lemma BareIsFolded(t: string, p: string, q: string)
    requires OnlyClashes(t) && |q| <= |t| && OccursAt(t, p, 0) && OccursAt(t, q, |t| - |q|)
    ensures Fold(p + REDACTED + q) == p + REDACTED + q
  {
    PieceOfSingleSpaced(t, p, 0);
    PieceIsSpaceless(t, p, 0);
    PieceOfSingleSpaced(t, q, |t| - |q|);
    PieceIsSpaceless(t, q, |t| - |q|);
    AroundMarkerIsFolded(p, q);
    FoldedIsFixed(p + REDACTED + q);
  }

  lemma CutBehindMarker(p: string, t: string)
    requires OccursAt(p + REDACTED, t, 0) && |p| <= |t| && |t| + 3 <= MAX_ERROR_MESSAGE_BYTES < |p| + |REDACTED|
    ensures Contains(Truncated(p + REDACTED, MAX_ERROR_MESSAGE_BYTES), t)
  {
    var s, cut := p + REDACTED, MAX_ERROR_MESSAGE_BYTES - 3;
    assert s[cut] == REDACTED[cut-|p|] && RuneStart(s[cut]);
    assert (s[..cut] + "...")[0..|t|] == s[0..|t|];
    ContainsAt(s[..cut] + "...", t, 0);
  }

  lemma NothingBefore(a: string, b: string)
    ensures "" + a + b == a + b
  {
  }

  lemma ComesOutSurvives(t: string, i: nat) returns (secrets: seq<string>, msg: string)
    requires WorthKeeping(t) && OnlyClashes(t)
    requires i < |REDACTED| && Comparable(t, REDACTED[i..]) && i + |t| <= MAX_ERROR_MESSAGE_BYTES
    ensures Survives(t, secrets, msg)
  {
    var q := FromInsideMarker(t, REDACTED, i);
    secrets, msg := BareClash(t, "", q);
    NothingBefore(REDACTED, q);
    ContainsAt(REDACTED + q, t, i);
    ShortIsNotCut(t, secrets, msg);
  }

  lemma RunsInSurvives(t: string, j: nat) returns (secrets: seq<string>, msg: string)
    requires WorthKeeping(t) && OnlyClashes(t) && j < |t| <= MAX_ERROR_MESSAGE_BYTES && Comparable(t[j..], REDACTED)
    requires |t| + 3 <= MAX_ERROR_MESSAGE_BYTES || j + |REDACTED| <= MAX_ERROR_MESSAGE_BYTES
    ensures Survives(t, secrets, msg)
  {
    var q := IntoMarker(t, REDACTED, j);
    secrets, msg := BareClash(t, t[..j], q);
    ContainsAt(t[..j] + REDACTED + q, t, 0);
    if j + |REDACTED| + |q| <= MAX_ERROR_MESSAGE_BYTES {
      ShortIsNotCut(t, secrets, msg);
    } else {
      assert t[..j] + REDACTED + q == t[..j] + REDACTED;
      CutBehindMarker(t[..j], t);
    }
  }

  lemma FittingClashSurvives(t: string) returns (secrets: seq<string>, msg: string)
    requires WorthKeeping(t) && OnlyClashes(t) && ClashFits(t) && |t| <= MAX_ERROR_MESSAGE_BYTES
    ensures Survives(t, secrets, msg)
  {
    if i :| 0 <= i < |REDACTED| && Comparable(t, REDACTED[i..]) && i + |t| <= MAX_ERROR_MESSAGE_BYTES {
      secrets, msg := ComesOutSurvives(t, i);
    } else {
      var j :| 0 <= j < |t| && Comparable(t[j..], REDACTED)
        && (|t| + 3 <= MAX_ERROR_MESSAGE_BYTES || j + |REDACTED| <= MAX_ERROR_MESSAGE_BYTES);
      secrets, msg := RunsInSurvives(t, j);
    }
  }

  /******* Where a clash must lie *******/

  predicate Visible(s: string, from: int, to: int) {
    0 <= from && to <= |s| && forall i | from <= i < to :: '!' <= s[i] <= '~'
  }

  /** The occurrence at `p` has more visible bytes beside it than a message has room for. */
  predicate Far(s: string, t: string, p: nat) {
    var n := MAX_ERROR_MESSAGE_BYTES + 1 - |t|;
    || Visible(s, p - n, p)
    || (|t| + 3 > MAX_ERROR_MESSAGE_BYTES && Visible(s, p + |t|, p + |t| + n))
  }

  predicate AllFar(s: string, t: string) {
    forall p: nat | p <= |s| && OccursAt(s, t, p) :: Far(s, t, p)
  }

  /** A long secret whose clash does not fit. */
  predicate Unfitting(t: string) {
    && OnlyClashes(t) && !ClashFits(t)
    && MAX_ERROR_MESSAGE_BYTES - |REDACTED| < |t| <= MAX_ERROR_MESSAGE_BYTES
  }

  lemma MarkerIsVisible(r: string, m: nat)
    requires OccursAt(r, REDACTED, m)
    ensures Visible(r, m, m + |REDACTED|)
  {
    forall i | m <= i < m + |REDACTED| ensures '!' <= r[i] <= '~' {
      assert r[m..m+|REDACTED|][i-m] == REDACTED[i-m];
    }
  }

  lemma ComesOutIsFar(r: string, p: nat, t: string, m: nat)
    requires Unfitting(t) && OccursAt(r, t, p) && OccursAt(r, REDACTED, m) && m < p < m + |REDACTED|
    ensures Far(r, t, p)
  {
    MarkerIsVisible(r, m);
    OverlapAgrees(r, REDACTED, m, t, p);
  }

  lemma RunsInIsFar(r: string, p: nat, t: string, m: nat)
    requires Unfitting(t) && OccursAt(r, t, p) && OccursAt(r, REDACTED, m) && p <= m < p + |t|
    ensures Far(r, t, p)
  {
    MarkerIsVisible(r, m);
    OverlapAgrees(r, t, p, REDACTED, m);
    assert Comparable(t[m-p..], REDACTED);
  }

  lemma TouchedIsFar(r: string, p: nat, t: string)
    requires Unfitting(t) && OccursAt(r, t, p) && Touched(r, p, t, REDACTED)
    ensures Far(r, t, p)
  {
    var m :| 0 <= m < p + |t| && OccursAt(r, REDACTED, m) && p < m + |REDACTED|;
    if p > m { ComesOutIsFar(r, p, t, m); } else { RunsInIsFar(r, p, t, m); }
  }

  lemma CarryBefore(s: string, p0: nat, r: string, p: nat, n: nat)
    requires n <= |REDACTED| && Before(s, p0, r, p, REDACTED) && Visible(s, p0 - n, p0)
    ensures Visible(r, p - n, p)
  {
    var k :| 0 <= k <= p && SameBefore(s, p0, r, p, REDACTED, k);
    var m := p - k - |REDACTED|;
    forall i | p - n <= i < p ensures i >= 0 && '!' <= r[i] <= '~' {
      if i >= p - k {
        assert r[p-k..p][i-(p-k)] == s[p0-k..p0][i-(p-k)] == s[i-p+p0];
      } else {
        assert r[m..m+|REDACTED|][i-m] == REDACTED[i-m];
      }
    }
  }

  lemma CarryAfter(s: string, e0: nat, r: string, e: nat, n: nat)
    requires n <= |REDACTED| && After(s, e0, r, e, REDACTED) && Visible(s, e0, e0 + n)
    ensures Visible(r, e, e + n)
  {
    var l :| 0 <= l <= |r| && SameAfter(s, e0, r, e, REDACTED, l);
    forall i | e <= i < e + n ensures i < |r| && '!' <= r[i] <= '~' {
      if i < e + l {
        assert r[e..e+l][i-e] == s[e0..e0+l][i-e] == s[i-e+e0];
      } else {
        assert r[e+l..e+l+|REDACTED|][i-e-l] == REDACTED[i-e-l];
      }
    }
  }

  lemma TracedIsFar(s: string, p0: nat, r: string, p: nat, t: string)
    requires Unfitting(t) && Traced(s, p0, r, p, t, REDACTED) && Far(s, t, p0)
    ensures Far(r, t, p)
  {
    var n := MAX_ERROR_MESSAGE_BYTES + 1 - |t|;
    if Visible(s, p0 - n, p0) {
      CarryBefore(s, p0, r, p, n);
    } else {
      CarryAfter(s, p0 + |t|, r, p + |t|, n);
    }
  }

  lemma ReplacingKeepsFar(s: string, pat: string, t: string)
    requires Unfitting(t) && pat != "" && (t == pat || AllFar(s, t))
    ensures AllFar(ReplaceAll(s, pat, REDACTED), t)
  {
    var r := ReplaceAll(s, pat, REDACTED);
    forall p: nat | p <= |r| && OccursAt(r, t, p) ensures Far(r, t, p) {
      Trace(s, pat, REDACTED, t, p);
      if Touched(r, p, t, REDACTED) {
        TouchedIsFar(r, p, t);
      } else {
        var p0 :| 0 <= p0 <= |s| && Traced(s, p0, r, p, t, REDACTED);
        TracedIsFar(s, p0, r, p, t);
      }
    }
  }

  lemma {:induction false} AllReplacedIsFar(secrets: seq<string>, msg: string, t: string)
    requires Unfitting(t) && AllNonEmpty(secrets) && (t in secrets || AllFar(msg, t))
    ensures AllFar(ReplaceEach(secrets, msg), t)
  {
    if secrets != [] {
      if t == secrets[0] || AllFar(msg, t) { ReplacingKeepsFar(msg, secrets[0], t); }
      AllReplacedIsFar(secrets[1..], ReplaceAll(msg, secrets[0], REDACTED), t);
    }
  }

  /** Dropping what ends in a byte that is not visible keeps what is visible beside an occurrence. */
  lemma DropKeepsFar(s: string, n: nat, t: string)
    requires AllFar(s, t) && 0 < n <= |s| && !Visible(s, n - 1, n) && |t| <= MAX_ERROR_MESSAGE_BYTES
    ensures AllFar(s[n..], t)
  {
    forall p: nat | p <= |s[n..]| && OccursAt(s[n..], t, p) ensures Far(s[n..], t, p) {
      assert s[n+p..n+p+|t|] == s[n..][p..p+|t|];
      assert Far(s, t, n + p);
    }
  }

  lemma WordKeepsFar(s: string, w: nat, t: string)
    requires AllFar(s, t) && w <= |s| && (w < |s| ==> !Visible(s, w, w + 1)) && |t| <= MAX_ERROR_MESSAGE_BYTES
    ensures AllFar(s[..w], t)
  {
    forall p: nat | p <= w && OccursAt(s[..w], t, p) ensures Far(s[..w], t, p) {
      assert s[p..p+|t|] == s[..w][p..p+|t|];
      assert Far(s, t, p);
    }
  }

  lemma SpaceIsNotVisible(s: string)
    requires SpaceLen(s) > 0
    ensures !Visible(s, 0, 1) && !Visible(s, SpaceLen(s) - 1, SpaceLen(s))
  {
  }

  /** White space folded, field by field. */
  lemma {:induction false} FieldsAreFar(s: string, t: string)
    requires AllFar(s, t) && 3 < |t| <= MAX_ERROR_MESSAGE_BYTES && SingleSpaced(t) && ' ' !in t
    ensures forall k | 0 <= k < |Fields(s)| :: AllFar(Fields(s)[k], t)
    decreases |s|
  {
    if s != "" && SpaceLen(s) > 0 {
      SpaceIsNotVisible(s);
      DropKeepsFar(s, SpaceLen(s), t);
      FieldsAreFar(s[SpaceLen(s)..], t);
    } else if s != "" {
      var w := WordLen(s);
      WordLenMeaning(s);
      if w < |s| { SpaceIsNotVisible(s[w..]); }
      WordKeepsFar(s, w, t);
      RestIsFar(s, w, t);
      FieldsAreFar(s[w..], t);
    }
  }

  lemma SpacelessStarts(t: string)
    requires |t| > 3 && SingleSpaced(t) && ' ' !in t
    ensures SpaceLen(t) == 0
  {
    assert t[0..] == t;
  }

  lemma SpaceStartsNothing(rest: string, t: string)
    requires |t| > 3 && SpaceLen(t) == 0 && (rest == "" || SpaceLen(rest) > 0)
    ensures !OccursAt(rest, t, 0)
  {
    assert OccursAt(rest, t, 0) ==> t <= rest;
  }

  lemma RestIsFar(s: string, w: nat, t: string)
    requires AllFar(s, t) && 3 < |t| <= MAX_ERROR_MESSAGE_BYTES && SingleSpaced(t) && ' ' !in t
    requires w <= |s| && (w < |s| ==> SpaceLen(s[w..]) > 0)
    ensures AllFar(s[w..], t)
  {
    SpacelessStarts(t);
    SpaceStartsNothing(s[w..], t);
    var rest := s[w..];
    forall p: nat | p <= |rest| && OccursAt(rest, t, p) ensures Far(rest, t, p) {
      assert s[w+p..w+p+|t|] == rest[p..p+|t|];
      assert Far(s, t, w + p);
      SpaceIsNotVisible(rest);
    }
  }

  lemma {:induction false} JoinKeepsFar(words: seq<string>, t: string)
    requires (forall k | 0 <= k < |words| :: AllFar(words[k], t)) && t != "" && ' ' !in t
      && |t| <= MAX_ERROR_MESSAGE_BYTES
    ensures AllFar(JoinSpace(words), t)
  {
    if |words| > 1 {
      assert forall k | 0 <= k < |words[1..]| :: words[1..][k] == words[k+1];
      JoinKeepsFar(words[1..], t);
      PairKeepsFar(words[0], JoinSpace(words[1..]), t);
    }
  }

  lemma PairKeepsFar(w: string, rest: string, t: string)
    requires AllFar(w, t) && AllFar(rest, t) && t != "" && ' ' !in t && |t| <= MAX_ERROR_MESSAGE_BYTES
    ensures AllFar(w + " " + rest, t)
  {
    var all := w + " " + rest;
    forall p: nat | p <= |all| && OccursAt(all, t, p) ensures Far(all, t, p) {
      if p <= |w| < p + |t| { CharInside(all, t, p, |w|); }
      if p + |t| <= |w| {
        assert w[p..p+|t|] == all[p..p+|t|];
        assert Far(w, t, p);
      } else {
        var k := p - |w| - 1;
        assert rest[k..k+|t|] == all[p..p+|t|];
        assert Far(rest, t, k);
      }
    }
  }

  lemma FarIsCutOff(f: string, t: string)
    requires AllFar(f, t) && t != "" && |t| <= MAX_ERROR_MESSAGE_BYTES && !CutExposes(t, MAX_ERROR_MESSAGE_BYTES)
    ensures !Contains(Truncated(f, MAX_ERROR_MESSAGE_BYTES), t)
  {
    var c := Truncated(f, MAX_ERROR_MESSAGE_BYTES);
    forall p: nat | p <= |c| ensures !OccursAt(c, t, p) {
      if OccursAt(c, t, p) {
        OccursBeforeCut(f, MAX_ERROR_MESSAGE_BYTES, t, p);
      }
    }
  }

  lemma OccursBeforeCut(f: string, limit: nat, t: string, p: nat)
    requires limit >= 3 && t != "" && !CutExposes(t, limit) && OccursAt(Truncated(f, limit), t, p)
    ensures OccursAt(f, t, p) && (|f| > limit ==> p + |t| <= limit - 3)
  {
    if |f| > limit {
      var cut := RuneBoundary(f, limit - 3);
      var out := f[..cut] + "...";
      if p + |t| > cut {
        var k := DotsFromEllipsis(f[..cut], t, p);
        assert false;
      }
      assert out[p..p+|t|] == f[p..p+|t|];
    }
  }

  lemma UnfittingIsRemoved(t: string, secrets: seq<string>, msg: string)
    requires Unfitting(t) && AllNonEmpty(secrets) && t in secrets
    ensures !Contains(Cleaned(secrets, msg), t)
  {
    var replaced := ReplaceEach(secrets, msg);
    AllReplacedIsFar(secrets, msg, t);
    FieldsAreFar(replaced, t);
    JoinKeepsFar(Fields(replaced), t);
    FarIsCutOff(Fold(replaced), t);
  }

  /******* The exact condition *******/

  /** The secret fits, its white space is single spaces, and some phase can bring it back within the limit. */
  ghost predicate CanSurvive(t: string)
    requires t != ""
  {
    && SingleSpaced(t) && |t| + Edges(t) <= MAX_ERROR_MESSAGE_BYTES
    && (ClashFits(t) || ' ' in t || CutExposes(t, MAX_ERROR_MESSAGE_BYTES))
  }

  lemma ShortClashFits(t: string)
    requires Clash(t) && |t| <= MAX_ERROR_MESSAGE_BYTES - |REDACTED|
    ensures ClashFits(t)
  {
  }

  lemma SurvivorsCan(t: string, secrets: seq<string>, msg: string)
    requires t != "" && Survives(t, secrets, msg)
    ensures CanSurvive(t)
  {
    SurvivorsAre(t, secrets, msg);
    if OnlyClashes(t) && !ClashFits(t) {
      if |t| <= MAX_ERROR_MESSAGE_BYTES - |REDACTED| {
        ShortClashFits(t);
      } else {
        UnfittingIsRemoved(t, secrets, msg);
      }
    }
  }

  lemma SomeSurvives(t: string) returns (secrets: seq<string>, msg: string)
    requires WorthKeeping(t) && CanSurvive(t)
    ensures Survives(t, secrets, msg)
  {
    if ' ' in t {
      secrets, msg := SpacedSurvives(t);
      ShortIsNotCut(t, secrets, msg);
    } else if CutExposes(t, MAX_ERROR_MESSAGE_BYTES) {
      secrets, msg := DottedSurvives(t);
    } else {
      secrets, msg := FittingClashSurvives(t);
    }
  }

  /**
   Exactly which secrets can survive scrubbing, for some configuration and some message: those that
   fit, whose white space is single spaces, and which clash with the marker where the rest of it
   fits too, hold a space, or end in dots that the ellipsis can supply.
   */
  lemma SurvivesIff(t: string)
    requires WorthKeeping(t)
    ensures (exists secrets, msg :: Survives(t, secrets, msg)) <==> CanSurvive(t)
  {
    if CanSurvive(t) {
      var secrets, msg := SomeSurvives(t);
    } else {
      forall secrets, msg ensures !Survives(t, secrets, msg) {
        if Survives(t, secrets, msg) { SurvivorsCan(t, secrets, msg); }
      }
    }
  }

  /******* The word inside the marker *******/

  lemma MarkerHasTheWord()
    ensures Contains(REDACTED, "redacted")
  {
    assert REDACTED[1..1+8] == "redacted";
    ContainsAt(REDACTED, "redacted", 1);
  }

  lemma WordBecomesMarker(t: string)
    requires t != ""
    ensures Cleaned([t], t) == REDACTED
  {
    ReplaceWhole(t);
    ReplaceEachOne(t, t);
    VisibleIsSingleSpaced(REDACTED);
    FoldedIsFixed(REDACTED);
  }

  /** A configured secret that survives: the word inside the marker. */
  lemma RedactedSurvives()
    ensures Survives("redacted", ["redacted"], "redacted")
  {
    VisibleIsKept("redacted");
    LoneIsKept("redacted");
    WordBecomesMarker("redacted");
    MarkerHasTheWord();
  }

  lemma VisibleIsKept(t: string)
    requires |t| >= 8 && forall i | 0 <= i < |t| :: '!' <= t[i] <= '~'
    ensures WorthKeeping(t)
  {
    assert SpaceLen(t) == 0;
    assert t[|t|-2..][0] == t[|t|-2] && t[|t|-3..][0] == t[|t|-3];
    assert TrailingSpaceLen(t) == 0;
  }
}
