/**
 The error scrubber (internal/pipeline/scrub.go): configured secrets are replaced, white space
 is folded, and the result is cut to a byte limit.

 Each of the three phases can expose a secret that its input did not contain.  For each phase the
 exact condition on the secret is proved, over all inputs; the scrubbing theorem then follows for
 every secret that meets none of the three.  Module Survivors says exactly which secrets can survive
 the phases together, and module Fragments when a secret is replaced as a whole.
 */
module Scrub {
  import opened Text

  const REDACTED := "[redacted]"
  const MAX_ERROR_MESSAGE_BYTES: nat := 400
  const MAX_FAILURE_REASON_BYTES: nat := 500
  const NO_REASON := "the step failed without reporting a reason"

  datatype Cause = Unreported | Reported(text: string)

  /******* Specification *******/

  /** A value long enough to be treated as a credential. */
  predicate WorthKeeping(secret: string) {
    |TrimSpace(secret)| >= 8
  }

  function Keep(secrets: seq<string>): seq<string> {
    if secrets == [] then []
    else (if WorthKeeping(secrets[0]) then [secrets[0]] else []) + Keep(secrets[1..])
  }

  ghost predicate LongestFirst(secrets: seq<string>) {
    forall i, j | 0 <= i < j < |secrets| :: |secrets[i]| >= |secrets[j]|
  }

  ghost predicate AllKept(secrets: seq<string>) {
    forall i | 0 <= i < |secrets| :: WorthKeeping(secrets[i])
  }

  predicate AllNonEmpty(secrets: seq<string>) {
    forall i | 0 <= i < |secrets| :: secrets[i] != ""
  }

  function ReplaceEach(secrets: seq<string>, msg: string): string
    requires AllNonEmpty(secrets)
  {
    if secrets == [] then msg
    else ReplaceEach(secrets[1..], ReplaceAll(msg, secrets[0], REDACTED))
  }

  /** The last rune start at or before `cut`, never below 0. */
  function RuneBoundary(s: string, cut: nat): (r: nat)
    requires cut < |s|
    ensures r <= cut && (r == 0 || RuneStart(s[r]))
  {
    if cut > 0 && !RuneStart(s[cut]) then RuneBoundary(s, cut - 1) else cut
  }

  function Truncated(s: string, limit: nat): (r: string)
    requires limit >= 3
    ensures |r| <= limit
  {
    if |s| <= limit then s else s[..RuneBoundary(s, limit - 3)] + "..."
  }

  function Cleaned(secrets: seq<string>, msg: string): (r: string)
    requires AllNonEmpty(secrets)
    ensures |r| <= MAX_ERROR_MESSAGE_BYTES
  {
    Truncated(Fold(ReplaceEach(secrets, msg)), MAX_ERROR_MESSAGE_BYTES)
  }

  function Rendered(secrets: seq<string>, cause: Cause): string
    requires AllNonEmpty(secrets)
  {
    match cause
    case Unreported => NO_REASON
    case Reported(text) => Cleaned(secrets, text)
  }

  /******* The code *******/

  function InsertByLength(x: string, sorted: seq<string>): (r: seq<string>)
    requires LongestFirst(sorted)
    ensures |r| == |sorted| + 1 && LongestFirst(r)
    ensures r[0] == x || (sorted != [] && r[0] == sorted[0])
    ensures multiset(r) == multiset(sorted) + multiset{x}
  {
    if sorted == [] || |sorted[0]| < |x| then [x] + sorted
    else
      var rest := InsertByLength(x, sorted[1..]);
      assert sorted == [sorted[0]] + sorted[1..];
      [sorted[0]] + rest
  }

  /** sort.Slice by descending length; clients use no more than that the result is an ordered permutation. */
  function SortLongestFirst(secrets: seq<string>): (r: seq<string>)
    ensures LongestFirst(r) && multiset(r) == multiset(secrets)
  {
    if secrets == [] then []
    else
      assert secrets == [secrets[0]] + secrets[1..];
      InsertByLength(secrets[0], SortLongestFirst(secrets[1..]))
  }

  lemma KeepStep(cleaned: seq<string>, secrets: seq<string>, i: nat)
    requires i < |secrets|
    ensures cleaned + Keep(secrets[i..])
         == (if WorthKeeping(secrets[i]) then cleaned + [secrets[i]] else cleaned) + Keep(secrets[i+1..])
  {
    assert secrets[i..][1..] == secrets[i+1..];
    assert cleaned + ([secrets[i]] + Keep(secrets[i+1..])) == cleaned + [secrets[i]] + Keep(secrets[i+1..]);
  }

  /** Every value worth keeping is kept as often as it is configured, and no other is. */
  lemma {:induction false} KeepCounts(secrets: seq<string>, s: string)
    ensures multiset(Keep(secrets))[s] == if |TrimSpace(s)| >= 8 then multiset(secrets)[s] else 0
  {
    if secrets != [] {
      var first := if WorthKeeping(secrets[0]) then [secrets[0]] else [];
      KeepCounts(secrets[1..], s);
      assert secrets == [secrets[0]] + secrets[1..];
      assert multiset(Keep(secrets)) == multiset(first) + multiset(Keep(secrets[1..]));
    }
  }

  lemma {:induction false} KeepKeeps(secrets: seq<string>)
    ensures AllKept(Keep(secrets))
  {
    if secrets != [] {
      KeepKeeps(secrets[1..]);
    }
  }

  lemma PermutationKeeps(a: seq<string>, b: seq<string>)
    requires AllKept(a) && multiset(a) == multiset(b)
    ensures AllKept(b)
  {
    forall i | 0 <= i < |b| ensures WorthKeeping(b[i]) {
      assert b[i] in multiset(a);
    }
  }

  method NewScrubber(secrets: seq<string>) returns (kept: seq<string>)
    ensures forall s :: multiset(kept)[s] == if |TrimSpace(s)| >= 8 then multiset(secrets)[s] else 0
    ensures LongestFirst(kept) && AllKept(kept)
  {
    var cleaned := [];
    assert [] + Keep(secrets[0..]) == Keep(secrets);
    for i := 0 to |secrets|
      invariant cleaned + Keep(secrets[i..]) == Keep(secrets)
    {
      KeepStep(cleaned, secrets, i);
      if WorthKeeping(secrets[i]) {
        cleaned := cleaned + [secrets[i]];
      }
    }
    assert cleaned == Keep(secrets);
    KeepKeeps(secrets);
    kept := SortLongestFirst(cleaned);
    forall s ensures multiset(kept)[s] == if |TrimSpace(s)| >= 8 then multiset(secrets)[s] else 0 {
      KeepCounts(secrets, s);
    }
    PermutationKeeps(cleaned, kept);
  }

  method Truncate(s: string, limit: nat) returns (r: string)
    requires limit >= 3
    ensures r == Truncated(s, limit)
  {
    if |s| <= limit {
      return s;
    }
    var cut := limit - 3;
    while cut > 0 && !RuneStart(s[cut])
      invariant 0 <= cut < |s|
      invariant RuneBoundary(s, cut) == RuneBoundary(s, limit - 3)
    {
      cut := cut - 1;
    }
    return s[..cut] + "...";
  }

  method Clean(secrets: seq<string>, message: string) returns (msg: string)
    requires AllKept(secrets)
    ensures AllNonEmpty(secrets) && msg == Cleaned(secrets, message)
  {
    msg := message;
    for i := 0 to |secrets|
      invariant AllNonEmpty(secrets)
      invariant ReplaceEach(secrets[i..], msg) == ReplaceEach(secrets, message)
    {
      assert secrets[i..][1..] == secrets[i+1..];
      msg := ReplaceAll(msg, secrets[i], REDACTED);
    }
    msg := Fold(msg);
    msg := Truncate(msg, MAX_ERROR_MESSAGE_BYTES);
  }

  method Message(secrets: seq<string>, cause: Cause) returns (msg: string)
    requires AllKept(secrets)
    ensures AllNonEmpty(secrets) && msg == Rendered(secrets, cause)
  {
    match cause
    case Unreported =>
      msg := NO_REASON;
    case Reported(text) => msg := Clean(secrets, text);
  }

  /******* Phase 1: replacing *******/

  /** `t` runs into the marker: from some byte of it onwards it agrees with the marker. */
  predicate TailClash(t: string, marker: string) {
    exists j | 0 <= j < |t| :: Comparable(t[j..], marker)
  }

  /** `t` can lie across an inserted marker: starting inside the marker, or running into it. */
  predicate ClashWith(t: string, marker: string) {
    (exists i | 0 <= i < |marker| :: Comparable(t, marker[i..])) || TailClash(t, marker)
  }

  predicate Clash(t: string) {
    ClashWith(t, REDACTED)
  }

  lemma TailOfNoClash(t: string, marker: string)
    requires t != "" && !TailClash(t, marker)
    ensures !TailClash(t[1..], marker) && !(t <= marker) && !(marker <= t)
  {
    assert t[0..] == t && !Comparable(t[0..], marker);
    forall j | 0 <= j < |t| - 1 ensures !Comparable(t[1..][j..], marker) {
      assert t[1..][j..] == t[j+1..];
    }
  }

  lemma {:induction false} PrefixOfReplaced(s: string, pat: string, marker: string, t: string)
    requires pat != "" && !TailClash(t, marker) && t <= ReplaceAll(s, pat, marker)
    ensures t <= s
  {
    if t != "" && s != "" {
      TailOfNoClash(t, marker);
      HeadAndTail(s);
      HeadAndTail(t);
      if pat <= s {
        PrefixSplits(s, pat);
        ReplaceMatch(s[|pat|..], pat, marker);
        assert false;
      } else {
        ReplaceSkip(s[0], s[1..], pat, marker);
        PrefixOfReplaced(s[1..], pat, marker, t[1..]);
      }
    }
  }

  lemma OccursInRight(a: string, b: string, t: string, i: nat)
    requires OccursAt(a + b, t, i)
    ensures i >= |a| ==> OccursAt(b, t, i - |a|)
    ensures i < |a| ==> Comparable(t, a[i..])
  {
    var all := a + b;
    if i >= |a| {
      assert b[i-|a|..i-|a|+|t|] == all[i..i+|t|];
    } else {
      assert all[i..] == a[i..] + b;
      assert t <= a[i..] + b;
    }
  }

  lemma {:induction false} OccursInReplaced(s: string, pat: string, marker: string, t: string, i: nat)
    requires pat != "" && t != "" && !ClashWith(t, marker)
    requires OccursAt(ReplaceAll(s, pat, marker), t, i)
    ensures Contains(s, t) && t != pat
    decreases |s|
  {
    if |s| < |pat| {
      ContainsAt(s, t, i);
    } else if pat <= s {
      var rest := s[|pat|..];
      PrefixSplits(s, pat);
      ReplaceMatch(rest, pat, marker);
      OccursInRight(marker, ReplaceAll(rest, pat, marker), t, i);
      OccursInReplaced(rest, pat, marker, t, i - |marker|);
      ContainsRight(pat, rest, t);
    } else if i == 0 {
      PrefixOfReplaced(s, pat, marker, t);
      ContainsAt(s, t, 0);
    } else {
      HeadAndTail(s);
      ReplaceSkip(s[0], s[1..], pat, marker);
      OccursInRight([s[0]], ReplaceAll(s[1..], pat, marker), t, i);
      OccursInReplaced(s[1..], pat, marker, t, i - 1);
      ContainsRight([s[0]], s[1..], t);
    }
  }

  /** Replacing any pattern creates no occurrence of a text that cannot clash, and removes the pattern itself. */
  lemma ReplaceNeverCreates(s: string, pat: string, t: string)
    requires pat != "" && t != "" && !Clash(t)
    requires t == pat || !Contains(s, t)
    ensures !Contains(ReplaceAll(s, pat, REDACTED), t)
  {
    var out := ReplaceAll(s, pat, REDACTED);
    if Contains(out, t) {
      var i: nat :| i <= |out| && OccursAt(out, t, i);
      OccursInReplaced(s, pat, REDACTED, t, i);
    }
  }

  function Run(c: char, n: nat): (r: string)
    ensures |r| == n && forall i | 0 <= i < n :: r[i] == c
  {
    seq(n, i => c)
  }

  lemma RunStartsLater(x: char, p: string, run: string, q: string)
    requires run != "" && |[x] + p| < |run| && forall i | 0 <= i < |run| :: run[i] == run[0]
    requires ([x] + p)[|p|] != run[0]
    ensures !(run <= [x] + (p + run + q))
  {
    var s := [x] + (p + run + q);
    assert s[|p|] == ([x] + p)[|p|];
    assert run[|p|] == run[0];
  }

  lemma AssocFour(x: char, a: string, b: string, c: string)
    ensures [x] + (a + b + c) == [x] + a + b + c
  {
  }

  /** A run of one byte is replaced where it begins when the byte before it differs. */
  lemma {:induction false} ReplaceRun(p: string, run: string, q: string, marker: string)
    requires |p| < |run| && |q| < |run| && (forall i | 0 <= i < |run| :: run[i] == run[0])
    requires p != "" ==> p[|p|-1] != run[0]
    ensures ReplaceAll(p + run + q, run, marker) == p + marker + q
  {
    if p == "" {
      assert p + run + q == run + q;
      ReplaceMatch(q, run, marker);
    } else {
      var x, p' := p[0], p[1..];
      HeadAndTail(p);
      AssocFour(x, p', run, q);
      RunStartsLater(x, p', run, q);
      ReplaceSkip(x, p' + run + q, run, marker);
      ReplaceRun(p', run, q, marker);
      AssocFour(x, p', marker, q);
    }
  }

  lemma RunIsWorthKeeping(c: char, n: nat)
    requires n >= 8 && 'a' <= c <= 'z'
    ensures WorthKeeping(Run(c, n))
  {
    var r := Run(c, n);
    assert SpaceLen(r) == 0;
    assert r[n-2..][0] == c && r[n-3..][0] == c;
    assert TrailingSpaceLen(r) == 0;
  }

  /** A long run of a byte that borders on nothing similar hides `t`. */
  lemma RunHides(p: string, c: char, n: nat, q: string, t: string)
    requires |p| < |t| <= n && |q| < |t| && c != t[0] && c != t[|t|-1]
    ensures !Contains(p + Run(c, n) + q, t)
  {
    var s := p + Run(c, n) + q;
    forall a: nat | a <= |s| ensures !OccursAt(s, t, a) {
      if a + |t| <= |s| {
        assert s[a..a+|t|][0] == s[a] && s[a..a+|t|][|t|-1] == s[a+|t|-1];
      }
    }
  }

  lemma OccursAcross(a: string, b: string, t: string, i: nat)
    requires i <= |a| && t <= a[i..] + b
    ensures OccursAt(a + b, t, i)
  {
    assert (a + b)[i..] == a[i..] + b;
    assert (a + b)[i..i+|t|] == (a + b)[i..][..|t|];
  }

  lemma FromInsideMarker(t: string, marker: string, at: nat) returns (q: string)
    requires t != "" && at < |marker| && Comparable(t, marker[at..])
    ensures |q| < |t| && OccursAt(t, q, |t| - |q|) && OccursAt(marker + q, t, at)
    ensures q == "" || |marker| + |q| == at + |t|
  {
    var tail := marker[at..];
    if tail <= t {
      q := t[|tail|..];
      PrefixSplits(t, tail);
    } else {
      q := "";
    }
    OccursAcross(marker, q, t, at);
  }

  lemma IntoMarker(t: string, marker: string, j: nat) returns (q: string)
    requires j < |t| && Comparable(t[j..], marker) && marker != ""
    ensures j + |q| < |t| && OccursAt(t, q, |t| - |q|) && OccursAt(t[..j] + marker + q, t, 0)
    ensures q == "" || j + |marker| + |q| == |t|
  {
    var u := t[j..];
    if marker <= u {
      q := u[|marker|..];
      PrefixSplits(u, marker);
    } else {
      q := "";
    }
    Assoc(t[..j], marker, q);
    var out := t[..j] + (marker + q);
    assert t == t[..j] + u;
    assert out[0..|t|] == t;
  }

  /**
   Where a clashing text lies across a marker: its own beginning `p` stands before the marker, its
   end `q` after it.
   */
  lemma AroundMarker(t: string, marker: string) returns (p: string, q: string, at: nat)
    requires t != "" && ClashWith(t, marker) && marker != ""
    ensures |p| + |q| < |t| && OccursAt(t, p, 0) && OccursAt(t, q, |t| - |q|) && OccursAt(p + marker + q, t, at)
  {
    if i :| 0 <= i < |marker| && Comparable(t, marker[i..]) {
      p, at := "", i;
      q := FromInsideMarker(t, marker, i);
      assert "" + marker == marker;
    } else {
      var j :| 0 <= j < |t| && Comparable(t[j..], marker);
      p, at := t[..j], 0;
      q := IntoMarker(t, marker, j);
    }
  }

  /** A text that can clash is created by replacing some other secret in some message without it. */
  lemma ClashIsExposed(t: string) returns (s: string, pat: string)
    requires t != "" && Clash(t)
    ensures WorthKeeping(pat) && pat != "" && !Contains(s, t) && Contains(ReplaceAll(s, pat, REDACTED), t)
  {
    var p, q, at := AroundMarker(t, REDACTED);
    var n := |t| + 8;
    var last := if p == "" then t[0] else p[|p|-1];
    var c := UnusedLetter(t[0], t[|t|-1], last);
    pat := Run(c, n);
    s := p + pat + q;
    RunIsWorthKeeping(c, n);
    ReplaceRun(p, pat, q, REDACTED);
    ContainsAt(p + REDACTED + q, t, at);
    RunHides(p, c, n, q, t);
  }

  function UnusedLetter(x: char, y: char, z: char): (c: char)
    ensures 'a' <= c <= 'd' && c != x && c != y && c != z
  {
    if 'a' != x && 'a' != y && 'a' != z then 'a'
    else if 'b' != x && 'b' != y && 'b' != z then 'b'
    else if 'c' != x && 'c' != y && 'c' != z then 'c'
    else 'd'
  }

  ghost predicate ReplacingExposes(t: string, s: string, pat: string) {
    pat != "" && WorthKeeping(pat) && !Contains(s, t) && Contains(ReplaceAll(s, pat, REDACTED), t)
  }

  /** Exact condition for the replacing phase: some kept secret and some message expose `t`. */
  lemma ReplacingExposesIff(t: string)
    requires t != ""
    ensures (exists s, pat :: ReplacingExposes(t, s, pat)) <==> Clash(t)
  {
    if Clash(t) {
      var s, pat := ClashIsExposed(t);
      assert ReplacingExposes(t, s, pat);
    } else {
      forall s, pat ensures !ReplacingExposes(t, s, pat) {
        if pat != "" && !Contains(s, t) {
          ReplaceNeverCreates(s, pat, t);
        }
      }
    }
  }

  /** A secret without brackets other than the word "redacted" cannot clash. */
  lemma PlainSecretsDoNotClash(t: string)
    requires |t| >= 8 && '[' !in t && ']' !in t && t != "redacted"
    ensures !Clash(t)
  {
    forall i | 0 <= i < |REDACTED| ensures !(REDACTED[i..] <= t) && !(t <= REDACTED[i..]) {
      var tail := REDACTED[i..];
      assert tail[|tail|-1] == ']' && tail[0] == REDACTED[i];
      assert i == 1 ==> tail[..8] == "redacted";
    }
    forall j | 0 <= j < |t| ensures !Comparable(t[j..], REDACTED) {
      assert t[j..][0] == t[j];
    }
  }

  /******* Phase 2: folding *******/

  lemma SpaceLenOfExtension(a: string, b: string)
    requires a != "" && (b == "" || !Continuation(b[0]))
    ensures SpaceLen(a + b) > 0 <==> SpaceLen(a) > 0
  {
    assert (a + b)[0] == a[0];
    if |a| == 1 && b != "" { assert (a + b)[1] == b[0]; }
    if |a| >= 2 { assert (a + b)[1] == a[1]; }
    if |a| == 2 && b != "" { assert (a + b)[2] == b[0]; }
    if |a| >= 3 { assert (a + b)[2] == a[2]; }
  }

  lemma SpaceLenOfPrefix(s: string, n: nat)
    requires n <= |s|
    ensures SpaceLen(s[..n]) > 0 ==> SpaceLen(s) > 0
  {
  }

  ghost predicate Word(w: string) {
    w != "" && forall i | 0 <= i < |w| :: SpaceLen(w[i..]) == 0
  }

  lemma {:induction false} WordLenMeaning(s: string)
    ensures forall i | 0 <= i < WordLen(s) :: SpaceLen(s[i..]) == 0
    ensures WordLen(s) < |s| ==> SpaceLen(s[WordLen(s)..]) > 0
  {
    if s != "" && SpaceLen(s) == 0 {
      WordLenMeaning(s[1..]);
      forall i | 0 <= i < WordLen(s) ensures SpaceLen(s[i..]) == 0 {
        if i == 0 { assert s[0..] == s; } else { assert s[i..] == s[1..][i-1..]; }
      }
      assert s[WordLen(s)..] == s[1..][WordLen(s)-1..];
    } else {
      assert s[0..] == s;
    }
  }

  lemma {:induction false} WordLenIs(s: string, w: nat)
    requires w <= |s| && (forall i | 0 <= i < w :: SpaceLen(s[i..]) == 0)
    requires w < |s| ==> SpaceLen(s[w..]) > 0
    ensures WordLen(s) == w
  {
    assert s[0..] == s;
    if w > 0 {
      assert s[1..][w-1..] == s[w..];
      assert forall i | 0 <= i < w - 1 :: s[1..][i..] == s[i+1..];
      WordLenIs(s[1..], w - 1);
    }
  }

  lemma FirstField(s: string)
    requires s != "" && SpaceLen(s) == 0
    ensures Word(s[..WordLen(s)]) && Contains(s, s[..WordLen(s)])
  {
    var n := WordLen(s);
    WordLenMeaning(s);
    forall i | 0 <= i < n ensures SpaceLen(s[..n][i..]) == 0 {
      assert s[..n][i..] == s[i..][..n-i];
      SpaceLenOfPrefix(s[i..], n - i);
    }
    ContainsAt(s, s[..n], 0);
  }

  /** Every field is a word and is a piece of the text. */
  lemma {:induction false} FieldMeaning(s: string, k: nat)
    requires k < |Fields(s)|
    ensures Word(Fields(s)[k]) && Contains(s, Fields(s)[k])
    decreases |s|
  {
    var n := SpaceLen(s);
    if n > 0 {
      FieldMeaning(s[n..], k);
      ContainsRight(s[..n], s[n..], Fields(s)[k]);
      PrefixSplits(s, s[..n]);
    } else if k == 0 {
      FirstField(s);
    } else {
      var w := WordLen(s);
      FieldMeaning(s[w..], k - 1);
      ContainsRight(s[..w], s[w..], Fields(s)[k]);
      PrefixSplits(s, s[..w]);
    }
  }

  lemma {:induction false} OccursInJoined(words: seq<string>, t: string, i: nat)
    requires t != "" && ' ' !in t && OccursAt(JoinSpace(words), t, i)
    ensures exists k | 0 <= k < |words| :: Contains(words[k], t)
  {
    if |words| == 1 {
      ContainsAt(words[0], t, i);
    } else if words != [] {
      var w, rest := words[0], JoinSpace(words[1..]);
      var all := w + " " + rest;
      if i <= |w| < i + |t| { CharInside(all, t, i, |w|); }
      if i + |t| <= |w| {
        assert w[i..i+|t|] == all[i..i+|t|];
        ContainsAt(w, t, i);
      } else if i > |w| {
        var k := i - |w| - 1;
        assert rest[k..k+|t|] == all[i..i+|t|];
        OccursInJoined(words[1..], t, k);
        var m :| 0 <= m < |words[1..]| && Contains(words[1..][m], t);
        assert words[m+1] == words[1..][m];
      }
    }
  }

  lemma SpaceLenInAppend(w: string, rest: string, i: nat)
    requires Word(w) && Folded(rest) && i < |w + " " + rest|
    ensures i < |w| ==> SpaceLen((w + " " + rest)[i..]) == 0 && w[i] != ' '
    ensures i > |w| && SpaceLen((w + " " + rest)[i..]) > 0 ==> rest[i-|w|-1] == ' '
  {
    var all := w + " " + rest;
    if i < |w| {
      assert all[i..] == w[i..] + (" " + rest);
      SpaceLenOfExtension(w[i..], " " + rest);
      assert w[i..][0] == w[i];
    } else if i > |w| {
      assert all[i..] == rest[i-|w|-1..];
    }
  }

  lemma FoldedAppend(w: string, rest: string)
    requires Word(w) && Folded(rest) && rest != ""
    ensures Folded(w + " " + rest)
  {
    var all := w + " " + rest;
    forall i | 0 <= i < |all| && SpaceLen(all[i..]) > 0 ensures all[i] == ' ' {
      SpaceLenInAppend(w, rest, i);
    }
    forall i | 0 < i < |all| && all[i] == ' ' ensures all[i-1] != ' ' {
      SpaceLenInAppend(w, rest, i - 1);
      if i < |w| { SpaceLenInAppend(w, rest, i); }
    }
    SpaceLenInAppend(w, rest, 0);
  }

  lemma {:induction false} JoinIsFolded(words: seq<string>)
    requires forall k | 0 <= k < |words| :: Word(words[k])
    ensures Folded(JoinSpace(words)) && (words != [] ==> JoinSpace(words) != "")
  {
    if |words| == 1 {
      var w := words[0];
      assert Word(w);
      assert forall i | 0 <= i < |w| :: w[i..][0] == w[i] && w[i] != ' ';
    } else if words != [] {
      JoinIsFolded(words[1..]);
      FoldedAppend(words[0], JoinSpace(words[1..]));
    }
  }

  lemma FoldIsFolded(s: string)
    ensures Folded(Fold(s))
  {
    forall k | 0 <= k < |Fields(s)| ensures Word(Fields(s)[k]) {
      FieldMeaning(s, k);
    }
    JoinIsFolded(Fields(s));
  }

  /** The same text with every space byte written as another one-byte white space. */
  function WithGaps(u: string, gap: char): (v: string)
    ensures |v| == |u|
  {
    seq(|u|, i requires 0 <= i < |u| => if u[i] == ' ' then gap else u[i])
  }

  lemma SpaceLenWithGaps(u: string, gap: char, i: nat)
    requires i < |u| && (gap == ' ' || gap == '\t') && u[i] != ' ' && SpaceLen(u[i..]) == 0
    ensures SpaceLen(WithGaps(u, gap)[i..]) == 0
  {
    var a, b := u[i..], WithGaps(u, gap)[i..];
    assert forall k | 0 <= k < |a| :: b[k] == if a[k] == ' ' then gap else a[k];
  }

  lemma FirstSpace(u: string) returns (w: nat)
    ensures w <= |u| && (forall i | 0 <= i < w :: u[i] != ' ') && (w < |u| ==> u[w] == ' ')
  {
    w := 0;
    while w < |u| && u[w] != ' '
      invariant w <= |u| && forall i | 0 <= i < w :: u[i] != ' '
    {
      w := w + 1;
    }
  }

  lemma FoldedTail(u: string, w: nat)
    requires Folded(u) && w < |u| && u[w] == ' '
    ensures w + 1 < |u| && Folded(u[w+1..])
  {
    var u' := u[w+1..];
    forall i | 0 <= i < |u'| ensures u'[i..] == u[i+w+1..] && u'[i] == u[i+w+1] {
    }
  }

  lemma FieldsOfWord(v: string)
    requires v != "" && WordLen(v) == |v|
    ensures Fields(v) == [v]
  {
    assert v[..|v|] == v && v[|v|..] == "";
    assert Fields(v[|v|..]) == [];
  }

  lemma FoldStep(v: string, w: nat)
    requires 0 < w < |v| && WordLen(v) == w && AsciiSpace(v[w]) && Fold(v[w+1..]) != ""
    ensures Fold(v) == v[..w] + " " + Fold(v[w+1..])
  {
    var gap := v[w..];
    assert gap[0] == v[w] && gap[1..] == v[w+1..];
    assert Fields(gap) == Fields(v[w+1..]) != [];
    assert Fields(v) == [v[..w]] + Fields(gap);
    assert Fields(v)[1..] == Fields(gap);
  }

  lemma FirstWordOfGaps(u: string, gap: char, w: nat)
    requires Folded(u) && (gap == ' ' || gap == '\t')
    requires w <= |u| && (forall i | 0 <= i < w :: u[i] != ' ') && (w < |u| ==> u[w] == ' ')
    ensures WordLen(WithGaps(u, gap)) == w
  {
    var v := WithGaps(u, gap);
    forall i | 0 <= i < w ensures SpaceLen(v[i..]) == 0 {
      SpaceLenWithGaps(u, gap, i);
    }
    if w < |u| { assert v[w..][0] == gap; }
    WordLenIs(v, w);
  }

  lemma SplitAtGap(u: string, gap: char, w: nat)
    requires w < |u| && u[w] == ' '
    ensures u == u[..w] + " " + u[w+1..]
    ensures WithGaps(u, gap)[w+1..] == WithGaps(u[w+1..], gap)
  {
  }

  lemma FoldFirstGap(u: string, gap: char, w: nat)
    requires (gap == ' ' || gap == '\t') && w < |u| && u[w] == ' ' && u[0] != ' ' && u[w+1..] != ""
    requires WordLen(WithGaps(u, gap)) == w && WithGaps(u, gap)[..w] == u[..w]
    requires Fold(WithGaps(u[w+1..], gap)) == u[w+1..]
    ensures Fold(WithGaps(u, gap)) == u
  {
    SplitAtGap(u, gap, w);
    FoldStep(WithGaps(u, gap), w);
  }

  lemma {:induction false} FoldWithGaps(u: string, gap: char)
    requires Folded(u) && (gap == ' ' || gap == '\t')
    ensures Fold(WithGaps(u, gap)) == u
    decreases |u|
  {
    if u != "" {
      var w := FirstSpace(u);
      FirstWordOfGaps(u, gap, w);
      assert WithGaps(u, gap)[..w] == u[..w];
      if w < |u| {
        FoldedTail(u, w);
        FoldWithGaps(u[w+1..], gap);
        FoldFirstGap(u, gap, w);
      } else {
        FieldsOfWord(WithGaps(u, gap));
      }
    }
  }

  lemma FoldedIsFixed(u: string)
    requires Folded(u)
    ensures Fold(u) == u
  {
    FoldWithGaps(u, ' ');
    assert WithGaps(u, ' ') == u;
  }

  lemma SpaceLenBeforeRune(a: string, rune: string, b: string)
    requires a != "" && rune != "" && SpaceLen(rune) == |rune|
    ensures SpaceLen(a + (rune + b)) > 0 <==> SpaceLen(a) > 0
    ensures SpaceLen(a) > 0 ==> SpaceLen(a + (rune + b)) == SpaceLen(a)
  {
    SpaceLenOfExtension(a, rune + b);
    if SpaceLen(a) > 0 {
      FirstRune(a);
      SpaceLenOfRune(a[..SpaceLen(a)], a[SpaceLen(a)..] + (rune + b));
      SplitAt(a, SpaceLen(a));
      Assoc(a[..SpaceLen(a)], a[SpaceLen(a)..], rune + b);
    }
  }

  lemma TailOf(a: string, b: string, i: nat)
    requires i <= |a|
    ensures (a + b)[i..] == a[i..] + b
  {
  }

  lemma FirstWordBeforeRune(a: string, rune: string, b: string)
    requires rune != "" && SpaceLen(rune) == |rune|
    ensures WordLen(a + (rune + b)) == WordLen(a) && (a + (rune + b))[..WordLen(a)] == a[..WordLen(a)]
  {
    var s, w := a + (rune + b), WordLen(a);
    WordLenMeaning(a);
    forall i | 0 <= i < w ensures SpaceLen(s[i..]) == 0 {
      TailOf(a, rune + b, i);
      SpaceLenBeforeRune(a[i..], rune, b);
    }
    TailOf(a, rune + b, w);
    if w < |a| {
      SpaceLenBeforeRune(a[w..], rune, b);
    } else {
      assert "" + (rune + b) == rune + b;
      SpaceLenOfRune(rune, b);
    }
    WordLenIs(s, w);
  }

  lemma FieldsAfterRune(rune: string, b: string)
    requires rune != "" && SpaceLen(rune) == |rune|
    ensures Fields(rune + b) == Fields(b)
  {
    SpaceLenOfRune(rune, b);
    TailOf(rune, b, |rune|);
    assert rune[|rune|..] + b == b;
  }

  lemma FieldsSkip(s: string, n: nat)
    requires s != "" && n == (if SpaceLen(s) > 0 then SpaceLen(s) else WordLen(s))
    ensures n <= |s| && Fields(s) == (if SpaceLen(s) > 0 then [] else [s[..n]]) + Fields(s[n..])
  {
    assert SpaceLen(s) > 0 ==> [] + Fields(s[n..]) == Fields(s[n..]);
  }

  /** One white space rune separates the words on its left from those on its right. */
  lemma {:induction false} FieldsSplit(a: string, rune: string, b: string)
    requires rune != "" && SpaceLen(rune) == |rune|
    ensures Fields(a + (rune + b)) == Fields(a) + Fields(b)
    decreases |a|
  {
    var s := a + (rune + b);
    if a == "" {
      assert s == rune + b;
      FieldsAfterRune(rune, b);
    } else {
      var n := if SpaceLen(a) > 0 then SpaceLen(a) else WordLen(a);
      var first := if SpaceLen(a) > 0 then [] else [a[..n]];
      SpaceLenBeforeRune(a, rune, b);
      FirstWordBeforeRune(a, rune, b);
      FieldsSkip(a, n);
      FieldsSkip(s, n);
      TailOf(a, rune + b, n);
      FieldsSplit(a[n..], rune, b);
      Assoc(first, Fields(a[n..]), Fields(b));
    }
  }

  function Joined(a: string, b: string): string {
    if a == "" then b else if b == "" then a else a + " " + b
  }

  lemma WordsAreNotEmpty(s: string)
    ensures forall k | 0 <= k < |Fields(s)| :: Word(Fields(s)[k])
  {
    forall k | 0 <= k < |Fields(s)| ensures Word(Fields(s)[k]) {
      FieldMeaning(s, k);
    }
  }

  lemma {:induction false} JoinOfTwo(xs: seq<string>, ys: seq<string>)
    requires (forall k | 0 <= k < |xs| :: Word(xs[k])) && (forall k | 0 <= k < |ys| :: Word(ys[k]))
    ensures JoinSpace(xs + ys) == Joined(JoinSpace(xs), JoinSpace(ys))
  {
    JoinIsFolded(xs);
    JoinIsFolded(ys);
    if xs == [] {
      assert xs + ys == ys;
    } else if ys == [] {
      assert xs + ys == xs;
    } else {
      assert (xs + ys)[1..] == xs[1..] + ys;
      JoinOfTwo(xs[1..], ys);
      JoinIsFolded(xs[1..]);
      if |xs| > 1 { Assoc(xs[0] + " ", JoinSpace(xs[1..]), " " + JoinSpace(ys)); }
    }
  }

  /** Folding keeps every word as it is, in order, and puts one space where there was white space between two. */
  lemma FoldJoins(a: string, rune: string, b: string, w: string)
    requires rune != "" && SpaceLen(rune) == |rune|
    ensures Fold(a + (rune + b)) == Joined(Fold(a), Fold(b))
    ensures Fold("") == "" && (Word(w) ==> Fold(w) == w)
  {
    FieldsSplit(a, rune, b);
    WordsAreNotEmpty(a);
    WordsAreNotEmpty(b);
    JoinOfTwo(Fields(a), Fields(b));
    if Word(w) {
      WordLenIs(w, |w|);
      FieldsOfWord(w);
    }
  }

  /** Folding can put together an occurrence of `t` that its input does not have. */
  predicate FoldExposes(t: string) {
    ' ' in t && SingleSpaced(t)
  }

  lemma PieceOfSingleSpaced(f: string, t: string, at: nat)
    requires SingleSpaced(f) && OccursAt(f, t, at)
    ensures SingleSpaced(t)
  {
    forall k | 0 <= k < |t| ensures t[k] == f[at+k] {
      assert f[at..at+|t|][k] == f[at+k];
    }
    forall k | 0 <= k < |t| && SpaceLen(t[k..]) > 0 ensures t[k] == ' ' {
      assert t[k..] == f[at+k..][..|t|-k];
      SpaceLenOfPrefix(f[at+k..], |t| - k);
    }
  }

  lemma FoldNeverCreates(s: string, t: string)
    requires t != "" && !FoldExposes(t) && Contains(Fold(s), t)
    ensures Contains(s, t)
  {
    var f := Fold(s);
    var i: nat :| i <= |f| && OccursAt(f, t, i);
    FoldIsFolded(s);
    PieceOfSingleSpaced(f, t, i);
    OccursInJoined(Fields(s), t, i);
    var k :| 0 <= k < |Fields(s)| && Contains(Fields(s)[k], t);
    FieldMeaning(s, k);
    ContainsTransitive(s, Fields(s)[k], t);
  }

  lemma PaddedIsFolded(t: string, e: char)
    requires SingleSpaced(t) && 'a' <= e <= 'z'
    ensures Folded([e] + t + [e])
  {
    BetweenLettersIsFolded([e], t, [e]);
  }

  lemma TabbedHides(u: string, t: string)
    requires ' ' in t
    ensures !Contains(WithGaps(u, '\t'), t)
  {
    var s := WithGaps(u, '\t');
    var k :| 0 <= k < |t| && t[k] == ' ';
    forall i: nat | i <= |s| ensures !OccursAt(s, t, i) {
      if i + |t| <= |s| {
        assert s[i..i+|t|][k] == s[i+k];
      }
    }
  }

  lemma FoldExposesSome(t: string) returns (s: string)
    requires FoldExposes(t)
    ensures !Contains(s, t) && Contains(Fold(s), t) && |Fold(s)| == |t| + 2
  {
    PaddedIsFolded(t, 'x');
    s := WithGaps("x" + t + "x", '\t');
    FoldWithGaps("x" + t + "x", '\t');
    ContainsMiddle("x", t, "x");
    TabbedHides("x" + t + "x", t);
  }

  /** Exact condition for the folding phase. */
  lemma FoldingExposesIff(t: string)
    requires t != ""
    ensures (exists s :: Contains(Fold(s), t) && !Contains(s, t)) <==> FoldExposes(t)
  {
    if FoldExposes(t) {
      var s := FoldExposesSome(t);
    } else if s: string :| Contains(Fold(s), t) && !Contains(s, t) {
      FoldNeverCreates(s, t);
      assert false;
    }
  }

  /******* Phase 3: cutting *******/

  /** `t` ends in dots that the ellipsis can supply, and the rest of it fits in front of the ellipsis. */
  predicate CutExposes(t: string, limit: nat) {
    exists k | 1 <= k <= 3 :: k <= |t| && t[|t|-k..] == Run('.', k) && |t| - k + 3 <= limit
  }

  lemma NoDoubleSpace(a: string, b: string)
    requires SingleSpaced(a) && SingleSpaced(b)
    requires a == "" || b == "" || a[|a|-1] != ' ' || b[0] != ' '
    ensures forall i | 0 < i < |a + b| && (a + b)[i] == ' ' :: (a + b)[i-1] != ' '
  {
    forall i | 0 < i < |a + b| && (a + b)[i] == ' ' ensures (a + b)[i-1] != ' ' {
      if i < |a| {
        assert a[i] == ' ';
      } else if i == |a| {
        assert b[0] == ' ';
      } else {
        assert b[i-|a|] == ' ' && (a + b)[i-1] == b[i-|a|-1];
      }
    }
  }

  lemma SingleSpacedBefore(a: string, b: string)
    requires SingleSpaced(a) && SingleSpaced(b) && b != "" && '!' <= b[0] <= '~'
    ensures SingleSpaced(a + b)
  {
    var u := a + b;
    NoDoubleSpace(a, b);
    forall i | 0 <= i < |u| && SpaceLen(u[i..]) > 0 ensures u[i] == ' ' {
      if i < |a| {
        assert u[i..] == a[i..] + b && u[i] == a[i];
        SpaceLenOfExtension(a[i..], b);
      } else {
        assert u[i..] == b[i-|a|..] && u[i] == b[i-|a|];
      }
    }
  }

  lemma SpaceLenOfClosed(a: string, b: string)
    requires a != "" && '!' <= a[|a|-1] <= '~'
    ensures SpaceLen(a + b) > 0 ==> SpaceLen(a) > 0
  {
    var u := a + b;
    assert u[0] == a[0];
    if |a| >= 2 { assert u[1] == a[1]; }
    if |a| >= 3 { assert u[2] == a[2]; }
  }

  lemma SingleSpacedAfter(a: string, b: string)
    requires SingleSpaced(a) && SingleSpaced(b) && a != "" && '!' <= a[|a|-1] <= '~'
    ensures SingleSpaced(a + b)
  {
    var u := a + b;
    NoDoubleSpace(a, b);
    forall i | 0 <= i < |u| && SpaceLen(u[i..]) > 0 ensures u[i] == ' ' {
      if i < |a| {
        assert u[i..] == a[i..] + b && u[i] == a[i];
        SpaceLenOfClosed(a[i..], b);
      } else {
        assert u[i..] == b[i-|a|..] && u[i] == b[i-|a|];
      }
    }
  }

  lemma VisibleIsSingleSpaced(w: string)
    requires forall i | 0 <= i < |w| :: '!' <= w[i] <= '~'
    ensures SingleSpaced(w)
  {
    assert forall i | 0 <= i < |w| :: w[i..][0] == w[i];
  }

  lemma BetweenLettersIsFolded(a: string, y: string, b: string)
    requires SingleSpaced(y) && a != "" && b != ""
    requires (forall i | 0 <= i < |a| :: '!' <= a[i] <= '~') && (forall i | 0 <= i < |b| :: '!' <= b[i] <= '~')
    ensures Folded(a + y + b)
  {
    VisibleIsSingleSpaced(a);
    VisibleIsSingleSpaced(b);
    SingleSpacedAfter(a, y);
    SingleSpacedBefore(a + y, b);
  }

  lemma DotsFromEllipsis(s: string, t: string, at: nat) returns (k: nat)
    requires t != "" && OccursAt(s + "...", t, at) && at + |t| > |s|
    ensures 1 <= k <= 3 && k <= |t| && t[|t|-k..] == Run('.', k) && |t| - k <= |s|
  {
    var out := s + "...";
    k := if at <= |s| then at + |t| - |s| else |t|;
    var tail := t[|t|-k..];
    forall m | 0 <= m < k ensures tail[m] == '.' {
      assert out[at..at+|t|][|t|-k+m] == out[at+|t|-k+m];
    }
  }

  lemma CutNeverCreates(s: string, limit: nat, t: string)
    requires limit >= 3 && t != "" && !CutExposes(t, limit) && Contains(Truncated(s, limit), t)
    ensures Contains(s, t)
  {
    if |s| > limit {
      var cut := RuneBoundary(s, limit - 3);
      var out := s[..cut] + "...";
      var i: nat :| i <= |out| && OccursAt(out, t, i);
      if i + |t| > cut {
        var k := DotsFromEllipsis(s[..cut], t, i);
      } else {
        assert out[i..i+|t|] == s[i..i+|t|];
        ContainsAt(s, t, i);
      }
    }
  }

  lemma DotsSplit(pad: string, y: string, t: string, k: nat)
    requires 1 <= k <= 3 && k <= |t| && y == t[..|t|-k] && t[|t|-k..] == Run('.', k)
    ensures pad + y + "..." == pad + t + Run('.', 3 - k)
  {
    assert "..." == Run('.', k) + Run('.', 3 - k);
    assert t == y + Run('.', k);
    Assoc(pad, y, Run('.', k));
    Assoc(pad + y, Run('.', k), Run('.', 3 - k));
  }

  lemma CutBeforeLetter(front: string, limit: nat)
    requires |front| + 3 == limit
    ensures Truncated(front + "xxxx", limit) == front + "..."
  {
    var s := front + "xxxx";
    assert s[|front|] == 'x' && s[..|front|] == front;
  }

  lemma CutExposesSome(t: string, limit: nat) returns (s: string, c: char, y: string)
    requires limit >= 3 && CutExposes(t, limit)
    ensures !Contains(s, t) && Contains(Truncated(s, limit), t)
    ensures 'a' <= c <= 'd' && OccursAt(t, y, 0) && |y| < |t| && |y| + 3 <= limit
      && s == Run(c, limit - 3 - |y|) + y + "xxxx"
  {
    var k :| 1 <= k <= 3 && k <= |t| && t[|t|-k..] == Run('.', k) && |t| - k + 3 <= limit;
    y := t[..|t|-k];
    c := UnusedLetter(t[0], t[0], t[0]);
    var pad := Run(c, limit - 3 - |y|);
    s := pad + y + "xxxx";
    DotlessHides(pad, c, y, t, k);
    CutBeforeLetter(pad + y, limit);
    DotsSplit(pad, y, t, k);
    ContainsMiddle(pad, t, Run('.', 3 - k));
  }

  lemma DotlessHides(pad: string, c: char, y: string, t: string, k: nat)
    requires t != "" && 1 <= k <= |t| && y == t[..|t|-k] && t[|t|-1] == '.'
    requires c != t[0] && c != '.' && forall i | 0 <= i < |pad| :: pad[i] == c
    ensures !Contains(pad + y + "xxxx", t)
  {
    var s := pad + y + "xxxx";
    forall i: nat | i <= |s| ensures !OccursAt(s, t, i) {
      if i + |t| <= |s| {
        assert s[i..i+|t|][0] == s[i] && s[i..i+|t|][|t|-1] == s[i+|t|-1];
      }
    }
  }

  /** Exact condition for the cutting phase. */
  lemma CuttingExposesIff(t: string, limit: nat)
    requires limit >= 3 && t != ""
    ensures (exists s :: Contains(Truncated(s, limit), t) && !Contains(s, t)) <==> CutExposes(t, limit)
  {
    if CutExposes(t, limit) {
      var s, c, y := CutExposesSome(t, limit);
    } else if s: string :| Contains(Truncated(s, limit), t) && !Contains(s, t) {
      CutNeverCreates(s, limit, t);
      assert false;
    }
  }

  /******* The scrubbing theorem *******/

  /** No phase can expose the secret. */
  predicate Scrubbable(t: string) {
    !Clash(t) && !FoldExposes(t) && !CutExposes(t, MAX_ERROR_MESSAGE_BYTES)
  }

  ghost predicate AllScrubbable(secrets: seq<string>) {
    forall i | 0 <= i < |secrets| :: WorthKeeping(secrets[i]) && Scrubbable(secrets[i])
  }

  lemma {:induction false} ReplaceEachRemoves(secrets: seq<string>, msg: string, t: string)
    requires AllNonEmpty(secrets) && t != "" && !Clash(t)
    requires t in secrets || !Contains(msg, t)
    ensures !Contains(ReplaceEach(secrets, msg), t)
  {
    if secrets != [] {
      var next := ReplaceAll(msg, secrets[0], REDACTED);
      if t == secrets[0] || !Contains(msg, t) {
        ReplaceNeverCreates(msg, secrets[0], t);
      }
      ReplaceEachRemoves(secrets[1..], next, t);
    }
  }

  /**
   A configured secret that no phase can expose survives in no scrubbed message, whatever the other
   secrets are and in whatever order they are replaced.
   */
  lemma NoSecretSurvives(secrets: seq<string>, msg: string, secret: string)
    requires AllNonEmpty(secrets) && secret in secrets && Scrubbable(secret)
    ensures !Contains(Cleaned(secrets, msg), secret)
  {
    var replaced := ReplaceEach(secrets, msg);
    ReplaceEachRemoves(secrets, msg, secret);
    if Contains(Cleaned(secrets, msg), secret) {
      CutNeverCreates(Fold(replaced), MAX_ERROR_MESSAGE_BYTES, secret);
      FoldNeverCreates(replaced, secret);
    }
  }

  lemma NotDottedIsNotCut(t: string, limit: nat)
    requires t != "" && t[|t|-1] != '.'
    ensures !CutExposes(t, limit)
  {
    forall k | 1 <= k <= 3 && k <= |t| ensures t[|t|-k..] != Run('.', k) {
      assert t[|t|-k..][k-1] == t[|t|-1];
    }
  }

  /** The conditions in the terms an operator can read off a secret. */
  lemma PlainSecretsAreScrubbable(t: string)
    requires WorthKeeping(t) && '[' !in t && ']' !in t && ' ' !in t && t != "redacted" && t[|t|-1] != '.'
    ensures Scrubbable(t)
  {
    PlainSecretsDoNotClash(t);
    NotDottedIsNotCut(t, MAX_ERROR_MESSAGE_BYTES);
  }

  lemma SpaceLenBeforeDots(p: string, i: nat)
    requires i < |p + "..."|
    ensures SpaceLen((p + "...")[i..]) > 0 ==> i < |p| && SpaceLen(p[i..]) > 0
  {
    var rest := (p + "...")[i..];
    if i < |p| {
      assert rest == p[i..] + "...";
      SpaceLenOfExtension(p[i..], "...");
    } else {
      assert rest[0] == '.';
    }
  }

  lemma AppendedDotsAreFolded(p: string)
    requires SingleSpaced(p) && (p != "" ==> p[0] != ' ')
    ensures Folded(p + "...")
  {
    var out := p + "...";
    forall i | 0 <= i < |out| && SpaceLen(out[i..]) > 0 ensures out[i] == ' ' {
      SpaceLenBeforeDots(p, i);
    }
    forall i | 0 < i < |out| && out[i] == ' ' ensures out[i-1] != ' ' {
      assert i < |p|;
    }
  }

  lemma TruncatedIsFolded(s: string, limit: nat)
    requires limit >= 3 && Folded(s)
    ensures Folded(Truncated(s, limit))
  {
    if |s| > limit {
      var p := s[..RuneBoundary(s, limit - 3)];
      PieceOfSingleSpaced(s, p, 0);
      AppendedDotsAreFolded(p);
    }
  }

  lemma {:induction false} ReplaceEachNothing(secrets: seq<string>, msg: string)
    requires AllNonEmpty(secrets) && forall s | s in secrets :: !Contains(msg, s)
    ensures ReplaceEach(secrets, msg) == msg
  {
    if secrets != [] {
      ReplaceNothing(msg, secrets[0], REDACTED);
      ReplaceEachNothing(secrets[1..], msg);
    }
  }

  /** A scrubbed message is a fixed point of scrubbing. */
  lemma CleanIsIdempotent(secrets: seq<string>, msg: string)
    requires AllScrubbable(secrets)
    ensures AllNonEmpty(secrets)
    ensures Cleaned(secrets, Cleaned(secrets, msg)) == Cleaned(secrets, msg)
  {
    var c := Cleaned(secrets, msg);
    forall s | s in secrets ensures !Contains(c, s) {
      NoSecretSurvives(secrets, msg, s);
    }
    ReplaceEachNothing(secrets, c);
    FoldIsFolded(ReplaceEach(secrets, msg));
    TruncatedIsFolded(Fold(ReplaceEach(secrets, msg)), MAX_ERROR_MESSAGE_BYTES);
    FoldedIsFixed(c);
  }

  /** A message of at most 400 bytes that quotes no secret and has no white space to fold is not touched. */
  lemma HarmlessIsKept(secrets: seq<string>, msg: string)
    requires AllNonEmpty(secrets) && Folded(msg) && |msg| <= 400 && forall s | s in secrets :: !Contains(msg, s)
    ensures Cleaned(secrets, msg) == msg
  {
    ReplaceEachNothing(secrets, msg);
    FoldedIsFixed(msg);
  }

  /******* Short lists *******/

  /** A list as the scrubber keeps it. */
  ghost predicate KeptList(secrets: seq<string>) {
    AllNonEmpty(secrets) && AllKept(secrets) && LongestFirst(secrets)
  }

  lemma PairIsKept(first: string, second: string)
    requires WorthKeeping(first) && WorthKeeping(second) && |first| >= |second|
    ensures KeptList([first, second])
  {
  }

  lemma ReplaceEachOne(t: string, msg: string)
    requires t != ""
    ensures ReplaceEach([t], msg) == ReplaceAll(msg, t, REDACTED)
  {
    assert [t][1..] == [];
  }

  lemma ReplaceEachTwo(first: string, second: string, msg: string)
    requires first != "" && second != ""
    ensures ReplaceEach([first, second], msg) == ReplaceAll(ReplaceAll(msg, first, REDACTED), second, REDACTED)
  {
    assert [first, second][1..] == [second];
    ReplaceEachOne(second, ReplaceAll(msg, first, REDACTED));
  }

  lemma ReplaceWhole(t: string)
    requires t != ""
    ensures ReplaceAll(t, t, REDACTED) == REDACTED
  {
    ReplaceMatch("", t, REDACTED);
    assert t + "" == t && REDACTED + "" == REDACTED;
  }

  /******* Cutting keeps runes whole *******/

  /** How long the UTF-8 sequence with this first byte is (RFC 3629, section 4), or 0 for no such sequence. */
  function LeadLen(c: char): (n: nat)
    ensures n <= 4
  {
    if c < '\U{80}' then 1
    else if '\U{C2}' <= c <= '\U{DF}' then 2
    else if '\U{E0}' <= c <= '\U{EF}' then 3
    else if '\U{F0}' <= c <= '\U{F4}' then 4
    else 0
  }

  /** The second bytes that would spell an overlong form, a surrogate or a value past U+10FFFF are excluded. */
  predicate SecondByteFits(lead: char, second: char) {
    && (lead == '\U{E0}' ==> second >= '\U{A0}')
    && (lead == '\U{ED}' ==> second <= '\U{9F}')
    && (lead == '\U{F0}' ==> second >= '\U{90}')
    && (lead == '\U{F4}' ==> second <= '\U{8F}')
  }

  /** Length of the well-formed UTF-8 sequence `s` starts with, or 0. */
  function RuneLen(s: string): (n: nat)
    ensures n <= |s| && n <= 4
  {
    if s == "" then 0
    else
      var n := LeadLen(s[0]);
      if n <= |s| && (forall i | 1 <= i < n :: Continuation(s[i])) && (n >= 2 ==> SecondByteFits(s[0], s[1])) then n
      else 0
  }

  predicate ValidUtf8(s: string)
    decreases |s|
  {
    s == "" || (RuneLen(s) > 0 && ValidUtf8(s[RuneLen(s)..]))
  }

  lemma RuneInside(s: string, k: nat)
    requires 0 < k < RuneLen(s)
    ensures !RuneStart(s[k])
  {
  }

  lemma RuneLenOfPrefix(s: string, cut: nat)
    requires RuneLen(s) <= cut <= |s|
    ensures RuneLen(s[..cut]) == RuneLen(s)
  {
  }

  lemma RuneLenOfAppend(a: string, b: string)
    requires RuneLen(a) > 0
    ensures RuneLen(a + b) == RuneLen(a)
  {
  }

  lemma ValidTail(s: string)
    requires ValidUtf8(s) && s != ""
    ensures RuneLen(s) > 0 && ValidUtf8(s[RuneLen(s)..])
  {
  }

  lemma ValidStep(s: string, n: nat)
    requires 0 < n <= |s| && RuneLen(s) == n && ValidUtf8(s[n..])
    ensures ValidUtf8(s)
  {
  }

  lemma DropAppend<T>(a: seq<T>, b: seq<T>, n: nat)
    requires n <= |a|
    ensures (a + b)[n..] == a[n..] + b
  {
  }

  lemma {:induction false} ValidAppend(a: string, b: string)
    requires ValidUtf8(a) && ValidUtf8(b)
    ensures ValidUtf8(a + b)
    decreases |a|
  {
    if a == "" {
      assert a + b == b;
    } else {
      var n := RuneLen(a);
      ValidTail(a);
      RuneLenOfAppend(a, b);
      ValidAppend(a[n..], b);
      DropAppend(a, b, n);
      ValidStep(a + b, n);
    }
  }

  lemma {:induction false} CutAtRuneStart(s: string, cut: nat)
    requires ValidUtf8(s) && cut < |s| && RuneStart(s[cut])
    ensures ValidUtf8(s[..cut])
    decreases |s|
  {
    if cut > 0 {
      var n := RuneLen(s);
      if cut < n { RuneInside(s, cut); }
      CutAtRuneStart(s[n..], cut - n);
      RuneLenOfPrefix(s, cut);
      assert s[..cut][n..] == s[n..][..cut-n];
    }
  }

  lemma EllipsisIsValid()
    ensures ValidUtf8("...")
  {
    assert "..."[1..] == ".." && ".."[1..] == "." && "."[1..] == "";
    assert ValidUtf8(".");
    assert ValidUtf8("..");
  }

  lemma {:induction false} ValidStartsWithRune(s: string)
    requires ValidUtf8(s) && s != ""
    ensures RuneStart(s[0])
  {
  }

  /** A valid message stays valid: no rune is ever split, and the cut is the last rune start that fits. */
  lemma TruncateKeepsRunes(s: string, limit: nat)
    requires limit >= 3 && ValidUtf8(s)
    ensures ValidUtf8(Truncated(s, limit))
    ensures |s| > limit ==> forall k | RuneBoundary(s, limit - 3) < k <= limit - 3 :: !RuneStart(s[k])
  {
    if |s| > limit {
      ValidStartsWithRune(s);
      BoundaryIsLast(s, limit - 3);
      CutAtRuneStart(s, RuneBoundary(s, limit - 3));
      EllipsisIsValid();
      ValidAppend(s[..RuneBoundary(s, limit - 3)], "...");
    }
  }

  lemma {:induction false} BoundaryIsLast(s: string, cut: nat)
    requires cut < |s|
    ensures forall k | RuneBoundary(s, cut) < k <= cut :: !RuneStart(s[k])
  {
    if cut > 0 && !RuneStart(s[cut]) {
      BoundaryIsLast(s, cut - 1);
    }
  }
}
