/**
 Go strings and the pieces of Go's `strings` package the service relies on.

 A Go string is a sequence of bytes.  The model writes one `char` per byte, so that
 string literals can be used as they stand; every length below is therefore a byte count.
 White space is Unicode white space in its UTF-8 encoding.  Each such encoding starts with a
 byte that is not a continuation byte, so scanning byte by byte meets exactly the white space
 that Go meets scanning rune by rune, whatever invalid bytes lie between.
 */
module Text {

  /** True for a byte that can start a rune (utf8.RuneStart). */
  predicate RuneStart(c: char) {
    !('\U{80}' <= c < '\U{C0}')
  }

  predicate Continuation(c: char) {
    '\U{80}' <= c < '\U{C0}'
  }

  /** The three-byte encodings of white space: U+1680, U+2000..200A, U+2028, U+2029, U+202F, U+205F and U+3000. */
  predicate WideSpace(a: char, b: char, c: char) {
    || (a == '\U{E1}' && b == '\U{9A}' && c == '\U{80}')
    || (a == '\U{E2}' && b == '\U{80}'
          && ('\U{80}' <= c <= '\U{8A}' || c == '\U{A8}' || c == '\U{A9}' || c == '\U{AF}'))
    || (a == '\U{E2}' && b == '\U{81}' && c == '\U{9F}')
    || (a == '\U{E3}' && b == '\U{80}' && c == '\U{80}')
  }

  predicate AsciiSpace(c: char) {
    '\t' <= c <= '\r' || c == ' '
  }

  /** How many bytes of white space rune `s` starts with; 0 when it starts with something else. */
  function SpaceLen(s: string): (n: nat)
    ensures n <= |s| && n <= 3
  {
    if s == "" then 0
    else if AsciiSpace(s[0]) then 1
    else if |s| >= 2 && s[0] == '\U{C2}' && (s[1] == '\U{85}' || s[1] == '\U{A0}') then 2
    else if |s| >= 3 && WideSpace(s[0], s[1], s[2]) then 3
    else 0
  }

  /** How many bytes of white space rune `s` ends with. */
  function TrailingSpaceLen(s: string): (n: nat)
    ensures n <= |s|
  {
    var z := |s|;
    if z >= 1 && AsciiSpace(s[z-1]) then 1
    else if z >= 2 && SpaceLen(s[z-2..]) == 2 then 2
    else if z >= 3 && SpaceLen(s[z-3..]) == 3 then 3
    else 0
  }

  function TrimLeft(s: string): (r: string)
    ensures |r| <= |s|
    decreases |s|
  {
    var n := SpaceLen(s);
    if n == 0 then s else TrimLeft(s[n..])
  }

  function TrimRight(s: string): (r: string)
    ensures |r| <= |s|
    decreases |s|
  {
    var n := TrailingSpaceLen(s);
    if n == 0 then s else TrimRight(s[..|s|-n])
  }

  function TrimSpace(s: string): (r: string)
    ensures |r| <= |s|
  {
    TrimRight(TrimLeft(s))
  }

  /** White space and nothing else. */
  predicate Gap(s: string)
    decreases |s|
  {
    s == "" || (SpaceLen(s) > 0 && Gap(s[SpaceLen(s)..]))
  }

  lemma SpaceLenOfRune(rune: string, rest: string)
    requires rune != "" && SpaceLen(rune) == |rune|
    ensures SpaceLen(rune + rest) == |rune|
  {
    var s := rune + rest;
    assert s[0] == rune[0];
    if |rune| >= 2 { assert s[1] == rune[1]; }
    if |rune| >= 3 { assert s[2] == rune[2]; }
  }

  lemma FirstRune(s: string)
    requires SpaceLen(s) > 0
    ensures SpaceLen(s[..SpaceLen(s)]) == SpaceLen(s)
  {
  }

  lemma {:induction false} GapJoin(a: string, b: string)
    requires Gap(a) && Gap(b)
    ensures Gap(a + b)
    decreases |a|
  {
    if a == "" {
      assert a + b == b;
    } else {
      var n := SpaceLen(a);
      FirstRune(a);
      assert a + b == a[..n] + (a[n..] + b);
      SpaceLenOfRune(a[..n], a[n..] + b);
      assert (a + b)[n..] == a[n..] + b;
      GapJoin(a[n..], b);
    }
  }

  lemma RuneIsGap(rune: string)
    requires rune != "" && SpaceLen(rune) == |rune|
    ensures Gap(rune)
  {
    assert rune[|rune|..] == "";
  }

  lemma SplitAt(s: string, n: nat)
    requires n <= |s|
    ensures s == s[..n] + s[n..]
  {
  }

  lemma {:induction false} TrimLeftMeaning(s: string) returns (a: string)
    ensures s == a + TrimLeft(s) && Gap(a) && SpaceLen(TrimLeft(s)) == 0
    decreases |s|
  {
    var n := SpaceLen(s);
    if n == 0 {
      a := "";
    } else {
      var rest := TrimLeftMeaning(s[n..]);
      a := s[..n] + rest;
      FirstRune(s);
      RuneIsGap(s[..n]);
      GapJoin(s[..n], rest);
      SplitAt(s, n);
      Assoc(s[..n], rest, TrimLeft(s[n..]));
    }
  }

  lemma LastRune(s: string)
    requires TrailingSpaceLen(s) > 0
    ensures var n := TrailingSpaceLen(s); SpaceLen(s[|s|-n..]) == n
  {
  }

  lemma TrimRightStep(s: string, front: string, rune: string, rest: string)
    requires s == front + rune && rune != "" && SpaceLen(rune) == |rune|
    requires front == TrimRight(front) + rest && Gap(rest)
    ensures s == TrimRight(front) + (rest + rune) && Gap(rest + rune)
  {
    RuneIsGap(rune);
    GapJoin(rest, rune);
    Assoc(TrimRight(front), rest, rune);
  }

  lemma {:induction false} TrimRightMeaning(s: string) returns (b: string)
    ensures s == TrimRight(s) + b && Gap(b) && TrailingSpaceLen(TrimRight(s)) == 0
    decreases |s|
  {
    var n := TrailingSpaceLen(s);
    if n == 0 {
      b := "";
    } else {
      var front, rune := s[..|s|-n], s[|s|-n..];
      var rest := TrimRightMeaning(front);
      LastRune(s);
      SplitAt(s, |s| - n);
      TrimRightStep(s, front, rune, rest);
      b := rest + rune;
    }
  }

  lemma {:induction false} GapEnds(x: string, g: string)
    requires Gap(g) && g != ""
    ensures TrailingSpaceLen(x + g) > 0
    decreases |g|
  {
    var n := SpaceLen(g);
    if n == |g| {
      var s := x + g;
      assert s[|s|-n..] == g;
    } else {
      assert x + g == (x + g[..n]) + g[n..];
      GapEnds(x + g[..n], g[n..]);
    }
  }

  /** No white space at either end. */
  ghost predicate Trimmed(s: string) {
    && (forall k | 0 < k <= |s| :: !Gap(s[..k]))
    && (forall k | 0 <= k < |s| :: !Gap(s[k..]))
  }

  lemma NoRuneInFront(r: string, b: string)
    requires SpaceLen(r + b) == 0
    ensures SpaceLen(r) == 0
  {
    if |r| >= 1 { assert (r + b)[0] == r[0]; }
    if |r| >= 2 { assert (r + b)[1] == r[1]; }
    if |r| >= 3 { assert (r + b)[2] == r[2]; }
  }

  lemma NoGapInFront(s: string, k: nat)
    requires SpaceLen(s) == 0 && 0 < k <= |s|
    ensures !Gap(s[..k])
  {
    SplitAt(s, k);
    NoRuneInFront(s[..k], s[k..]);
  }

  lemma NoGapBehind(s: string, k: nat)
    requires TrailingSpaceLen(s) == 0 && k < |s|
    ensures !Gap(s[k..])
  {
    SplitAt(s, k);
    if Gap(s[k..]) { GapEnds(s[..k], s[k..]); }
  }

  lemma NoRunesAtEnds(s: string)
    requires SpaceLen(s) == 0 && TrailingSpaceLen(s) == 0
    ensures Trimmed(s)
  {
    forall k | 0 < k <= |s| ensures !Gap(s[..k]) {
      NoGapInFront(s, k);
    }
    forall k | 0 <= k < |s| ensures !Gap(s[k..]) {
      NoGapBehind(s, k);
    }
  }

  /** strings.TrimSpace takes all the white space from both ends, and nothing else. */
  lemma TrimMeaning(s: string) returns (a: string, b: string)
    ensures s == a + TrimSpace(s) + b && Gap(a) && Gap(b) && Trimmed(TrimSpace(s))
  {
    a := TrimLeftMeaning(s);
    b := TrimRightMeaning(TrimLeft(s));
    assert TrimLeft(s) == TrimSpace(s) + b;
    Assoc(a, TrimSpace(s), b);
    NoRuneInFront(TrimSpace(s), b);
    NoRunesAtEnds(TrimSpace(s));
  }

  /** The test strings.TrimSpace(s) == "". */
  predicate Blank(s: string) {
    TrimSpace(s) == ""
  }

  predicate Comparable(a: string, b: string) {
    a <= b || b <= a
  }

  predicate OccursAt(s: string, t: string, i: nat) {
    i + |t| <= |s| && s[i..i+|t|] == t
  }

  /** strings.Contains. */
  predicate Contains(s: string, t: string) {
    exists i: nat | i <= |s| :: OccursAt(s, t, i)
  }

  lemma ContainsAt(s: string, t: string, i: nat)
    requires OccursAt(s, t, i)
    ensures Contains(s, t)
  {
  }

  lemma ContainsMiddle(a: string, t: string, b: string)
    ensures Contains(a + t + b, t)
  {
    assert (a + t + b)[|a|..|a|+|t|] == t;
    ContainsAt(a + t + b, t, |a|);
  }

  lemma ContainsAtEnd(a: string, t: string)
    ensures Contains(a + t, t)
  {
    assert (a + t)[|a|..|a|+|t|] == t;
    ContainsAt(a + t, t, |a|);
  }

  /** An occurrence in a piece is an occurrence in the whole. */
  lemma ContainsWiden(a: string, s: string, b: string, t: string)
    requires Contains(s, t)
    ensures Contains(a + s + b, t)
  {
    var i: nat :| i <= |s| && OccursAt(s, t, i);
    assert (a + s + b)[|a|+i..|a|+i+|t|] == s[i..i+|t|];
    ContainsAt(a + s + b, t, |a| + i);
  }

  lemma ContainsRight(a: string, s: string, t: string)
    requires Contains(s, t)
    ensures Contains(a + s, t)
  {
    ContainsWiden(a, s, "", t);
    assert a + s + "" == a + s;
  }

  lemma ContainsLeft(s: string, b: string, t: string)
    requires Contains(s, t)
    ensures Contains(s + b, t)
  {
    ContainsWiden("", s, b, t);
    assert "" + s + b == s + b;
  }

  lemma ContainsTransitive(s: string, t: string, u: string)
    requires Contains(s, t) && Contains(t, u)
    ensures Contains(s, u)
  {
    var i: nat :| i <= |s| && OccursAt(s, t, i);
    assert s == s[..i] + t + s[i+|t|..];
    ContainsWiden(s[..i], t, s[i+|t|..], u);
  }

  /** strings.ReplaceAll for a non-empty pattern: leftmost matches, left to right, no overlap. */
  function ReplaceAll(s: string, pat: string, rep: string): string
    requires pat != ""
  {
    if |s| < |pat| then s
    else if s[..|pat|] == pat then rep + ReplaceAll(s[|pat|..], pat, rep)
    else [s[0]] + ReplaceAll(s[1..], pat, rep)
  }

  lemma ReplaceMatch(rest: string, pat: string, rep: string)
    requires pat != ""
    ensures ReplaceAll(pat + rest, pat, rep) == rep + ReplaceAll(rest, pat, rep)
  {
    var s := pat + rest;
    assert s[..|pat|] == pat && s[|pat|..] == rest;
  }

  lemma ReplaceSkip(x: char, rest: string, pat: string, rep: string)
    requires pat != "" && !(pat <= [x] + rest)
    ensures ReplaceAll([x] + rest, pat, rep) == [x] + ReplaceAll(rest, pat, rep)
  {
    var s := [x] + rest;
    assert s[1..] == rest;
  }

  lemma Assoc<T>(a: seq<T>, b: seq<T>, c: seq<T>)
    ensures a + (b + c) == a + b + c
  {
  }

  lemma CharInside(s: string, t: string, i: nat, p: nat)
    requires OccursAt(s, t, i) && i <= p < i + |t|
    ensures s[p] in t
  {
    assert s[i..i+|t|][p-i] == s[p];
  }

  lemma HeadAndTail(s: string)
    requires s != ""
    ensures s == [s[0]] + s[1..]
  {
  }

  lemma PrefixSplits(s: string, pat: string)
    requires pat <= s
    ensures s == pat + s[|pat|..]
  {
  }

  /** A text without the pattern is returned as it is. */
  lemma {:induction false} ReplaceNothing(s: string, pat: string, rep: string)
    requires pat != "" && !Contains(s, pat)
    ensures ReplaceAll(s, pat, rep) == s
  {
    if s != "" {
      HeadAndTail(s);
      if pat <= s { ContainsAt(s, pat, 0); }
      if Contains(s[1..], pat) { ContainsRight([s[0]], s[1..], pat); }
      ReplaceNothing(s[1..], pat, rep);
      ReplaceSkip(s[0], s[1..], pat, rep);
    }
  }

  /** How many bytes lie before the first white space rune. */
  function WordLen(s: string): (n: nat)
    ensures n <= |s|
  {
    if s == "" || SpaceLen(s) > 0 then 0 else 1 + WordLen(s[1..])
  }

  /** strings.Fields: the maximal runs without white space. */
  function Fields(s: string): seq<string>
    decreases |s|
  {
    if s == "" then []
    else if SpaceLen(s) > 0 then Fields(s[SpaceLen(s)..])
    else [s[..WordLen(s)]] + Fields(s[WordLen(s)..])
  }

  /** strings.Join with a single space. */
  function JoinSpace(words: seq<string>): string {
    if words == [] then ""
    else if |words| == 1 then words[0]
    else words[0] + " " + JoinSpace(words[1..])
  }

  function Fold(s: string): string {
    JoinSpace(Fields(s))
  }

  /** White space occurs in `t` only as single space bytes. */
  predicate SingleSpaced(t: string) {
    && (forall i {:trigger SpaceLen(t[i..])} | 0 <= i < |t| && SpaceLen(t[i..]) > 0 :: t[i] == ' ')
    && (forall i | 0 < i < |t| && t[i] == ' ' :: t[i-1] != ' ')
  }

  /** The texts that folding produces: single-spaced, with no space at either end. */
  predicate Folded(t: string) {
    SingleSpaced(t) && (t != "" ==> t[0] != ' ' && t[|t|-1] != ' ')
  }

  /******* White space as Unicode lists it *******/

  /** A code point below U+10000 in UTF-8 (RFC 3629, section 3). */
  function Utf8(cp: nat): string
    requires cp < 0x10000
  {
    if cp < 0x80 then [cp as char]
    else if cp < 0x800 then [(0xC0 + cp / 64) as char, (0x80 + cp % 64) as char]
    else [(0xE0 + cp / 4096) as char, (0x80 + cp / 64 % 64) as char, (0x80 + cp % 64) as char]
  }

  /** The code points with the property White_Space. */
  predicate WhiteSpace(cp: nat) {
    || 0x9 <= cp <= 0xD || cp == 0x20 || cp == 0x85 || cp == 0xA0 || cp == 0x1680 || 0x2000 <= cp <= 0x200A
    || cp == 0x2028 || cp == 0x2029 || cp == 0x202F || cp == 0x205F || cp == 0x3000
  }

  /** Reading bytes finds exactly the white space that Unicode lists. */
  lemma SpaceIsUnicode(cp: nat)
    requires cp < 0x10000
    ensures SpaceLen(Utf8(cp)) == if WhiteSpace(cp) then |Utf8(cp)| else 0
  {
    assert cp == 4096 * (cp / 4096) + 64 * (cp / 64 % 64) + cp % 64;
  }
}
