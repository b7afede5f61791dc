/**
 Store keys: the checks both blob stores share, Go's lexical path.Clean as a stack machine over
 segments, and where each store puts an accepted key.
 (internal/storage/storage.go, local.go and s3.go.)
 */
module Keys {
  import opened Text

  datatype KeyError = EmptyKey | EscapesRoot
  datatype Result<T> = Ok(value: T) | Err(error: KeyError)

  /******* path.Clean *******/

  /** The pieces of a path between its slashes; there is always at least one. */
  function Segments(path: string): (r: seq<string>)
    ensures r != []
  {
    if path == "" then [""]
    else
      var rest := Segments(path[1..]);
      if path[0] == '/' then [""] + rest else [[path[0]] + rest[0]] + rest[1..]
  }

  function JoinSlash(segs: seq<string>): string {
    if segs == [] then ""
    else if |segs| == 1 then segs[0]
    else segs[0] + "/" + JoinSlash(segs[1..])
  }

  /** One element of the path against the elements kept so far. */
  function Push(rooted: bool, stack: seq<string>, seg: string): seq<string> {
    if seg == "" || seg == "." then stack
    else if seg == ".." then
      if stack != [] && stack[|stack|-1] != ".." then stack[..|stack|-1]
      else if rooted then stack
      else stack + [".."]
    else stack + [seg]
  }

  function Walk(rooted: bool, stack: seq<string>, segs: seq<string>): seq<string>
    decreases |segs|
  {
    if segs == [] then stack else Walk(rooted, Push(rooted, stack, segs[0]), segs[1..])
  }

  function Render(rooted: bool, stack: seq<string>): string {
    if rooted then "/" + JoinSlash(stack)
    else if stack == [] then "."
    else JoinSlash(stack)
  }

  predicate Rooted(path: string) {
    path != "" && path[0] == '/'
  }

  /** The elements path.Clean keeps. */
  function Kept(path: string): seq<string> {
    Walk(Rooted(path), [], Segments(path))
  }

  /** path.Clean, which filepath.Clean equals where the separator is a slash. */
  function Clean(path: string): string {
    Render(Rooted(path), Kept(path))
  }

  /** path.Join of two non-empty elements. */
  function Join(a: string, b: string): string {
    Clean(a + "/" + b)
  }

  /******* The code *******/

  predicate HasDriveLetter(key: string) {
    |key| >= 2 && key[1] == ':' && ('a' <= key[0] <= 'z' || 'A' <= key[0] <= 'Z')
  }

  /** strings.ReplaceAll(key, `\`, "/"). */
  function Slashes(key: string): (r: string)
    ensures |r| == |key|
  {
    seq(|key|, i requires 0 <= i < |key| => if key[i] == '\\' then '/' else key[i])
  }

  function ValidateKey(key: string): Result<string> {
    if Blank(key) then Err(EmptyKey)
    else if "/" <= key || "\\" <= key || HasDriveLetter(key) then Err(EscapesRoot)
    else
      var clean := Clean(Slashes(key));
      if Rooted(clean) || clean == ".." || "../" <= clean then Err(EscapesRoot) else Ok(clean)
  }

  /** Local.resolve for a root in the form filepath.Abs gives it. */
  function Resolve(root: string, key: string): Result<string> {
    match ValidateKey(key)
    case Err(e) => Err(e)
    case Ok(clean) =>
      var path := Join(root, clean);
      if path != root && !(root + "/" <= path) then Err(EscapesRoot) else Ok(path)
  }

  /** S3.objectKey. */
  function ObjectKey(prefix: string, key: string): Result<string> {
    match ValidateKey(key)
    case Err(e) => Err(e)
    case Ok(clean) => Ok(if prefix == "" then clean else Join(prefix, clean))
  }

  /** storageKey: path.Join of three elements. */
  function StorageKey(uploadId: string, fileId: string): string {
    Clean("uploads/" + uploadId + "/" + fileId + ".pdf")
  }

  /******* Names, joining and splitting *******/

  /** A path element that stands for something. */
  predicate Name(seg: string) {
    seg != "" && seg != "." && seg != ".." && '/' !in seg
  }

  ghost predicate AllNames(segs: seq<string>) {
    forall i | 0 <= i < |segs| :: Name(segs[i])
  }

  ghost predicate NoSlashes(segs: seq<string>) {
    forall i | 0 <= i < |segs| :: '/' !in segs[i]
  }

  lemma {:induction false} SegmentsOfOne(seg: string)
    requires '/' !in seg
    ensures Segments(seg) == [seg]
  {
    if seg != "" {
      assert seg[0] in seg;
      SegmentsOfOne(seg[1..]);
      assert [seg[0]] + seg[1..] == seg;
    }
  }

  lemma SegmentsStep(x: char, rest: string)
    ensures Segments([x] + rest)
         == if x == '/' then [""] + Segments(rest) else [[x] + Segments(rest)[0]] + Segments(rest)[1..]
  {
    assert ([x] + rest)[1..] == rest;
  }

  lemma SlashAssoc(x: char, a: string, b: string)
    ensures [x] + (a + "/" + b) == [x] + a + "/" + b
  {
  }

  lemma PrependHead(x: char, ra: seq<string>, rb: seq<string>)
    requires ra != []
    ensures [[x] + (ra + rb)[0]] + (ra + rb)[1..] == [[x] + ra[0]] + ra[1..] + rb
  {
    assert (ra + rb)[0] == ra[0] && (ra + rb)[1..] == ra[1..] + rb;
  }

  lemma {:induction false} SegmentsOfJoined(a: string, b: string)
    ensures Segments(a + "/" + b) == Segments(a) + Segments(b)
  {
    if a == "" {
      assert "" + "/" + b == ['/'] + b;
      SegmentsStep('/', b);
    } else {
      var x, a' := a[0], a[1..];
      HeadAndTail(a);
      SegmentsOfJoined(a', b);
      SlashAssoc(x, a', b);
      SegmentsStep(x, a' + "/" + b);
      SegmentsStep(x, a');
      PrependHead(x, Segments(a'), Segments(b));
      Assoc([""], Segments(a'), Segments(b));
    }
  }

  lemma {:induction false} SegmentsOfJoin(segs: seq<string>)
    requires segs != [] && NoSlashes(segs)
    ensures Segments(JoinSlash(segs)) == segs
  {
    SegmentsOfOne(segs[0]);
    if |segs| > 1 {
      SegmentsOfJoin(segs[1..]);
      SegmentsOfJoined(segs[0], JoinSlash(segs[1..]));
    }
  }

  lemma {:induction false} SegmentsHaveNoSlash(path: string)
    ensures NoSlashes(Segments(path))
  {
    if path != "" {
      SegmentsHaveNoSlash(path[1..]);
    }
  }

  lemma {:induction false} WalkAppend(rooted: bool, stack: seq<string>, a: seq<string>, b: seq<string>)
    ensures Walk(rooted, stack, a + b) == Walk(rooted, Walk(rooted, stack, a), b)
    decreases |a|
  {
    if a == [] {
      assert a + b == b;
    } else {
      assert (a + b)[1..] == a[1..] + b;
      WalkAppend(rooted, Push(rooted, stack, a[0]), a[1..], b);
    }
  }

  lemma {:induction false} WalkNames(rooted: bool, stack: seq<string>, names: seq<string>)
    requires AllNames(names)
    ensures Walk(rooted, stack, names) == stack + names
    decreases |names|
  {
    if names != [] {
      WalkNames(rooted, stack + [names[0]], names[1..]);
      assert stack + [names[0]] + names[1..] == stack + names;
    }
  }

  /** The form of every stack: climbs first, then names; a rooted one has no climbs. */
  ghost predicate StackForm(rooted: bool, stack: seq<string>) {
    && (forall i | 0 <= i < |stack| :: Name(stack[i]) || (stack[i] == ".." && !rooted))
    && (forall i | 0 < i < |stack| && stack[i] == ".." :: stack[i-1] == "..")
  }

  lemma {:induction false} WalkForm(rooted: bool, stack: seq<string>, segs: seq<string>)
    requires StackForm(rooted, stack) && NoSlashes(segs)
    ensures StackForm(rooted, Walk(rooted, stack, segs))
    decreases |segs|
  {
    if segs != [] {
      WalkForm(rooted, Push(rooted, stack, segs[0]), segs[1..]);
    }
  }

  lemma {:induction false} FirstClimb(stack: seq<string>, i: nat)
    requires StackForm(false, stack) && i < |stack| && stack[i] == ".."
    ensures stack[0] == ".."
  {
    if i > 0 { FirstClimb(stack, i - 1); }
  }

  /** Rendering loses nothing. */
  lemma RenderedSegments(stack: seq<string>)
    requires AllNames(stack)
    ensures Segments(Render(false, stack)) == if stack == [] then ["."] else stack
    ensures !Rooted(Render(false, stack))
  {
    if stack == [] {
      SegmentsOfOne(".");
    } else {
      SegmentsOfJoin(stack);
      var path := JoinSlash(stack);
      assert Segments(path)[0] == stack[0] != "";
      assert path[0] != '/';
    }
  }

  lemma RenderInjective(rooted: bool, a: seq<string>, b: seq<string>)
    requires StackForm(rooted, a) && StackForm(rooted, b) && Render(rooted, a) == Render(rooted, b)
    ensures a == b
  {
    assert Render(rooted, a)[..1] == Render(rooted, b)[..1];
    if rooted { assert Render(rooted, a)[1..] == JoinSlash(a) && Render(rooted, b)[1..] == JoinSlash(b); }
    if a != [] { SegmentsOfJoin(a); }
    if b != [] { SegmentsOfJoin(b); }
    SegmentsOfOne(".");
    SegmentsOfOne("");
  }

  /******* Which keys are accepted *******/

  /** The path names something above its start at some point: read left to right, a ".." meets depth 0. */
  predicate Climbs(depth: nat, segs: seq<string>)
    decreases |segs|
  {
    if segs == [] then false
    else if segs[0] == "" || segs[0] == "." then Climbs(depth, segs[1..])
    else if segs[0] == ".." then depth == 0 || Climbs(depth - 1, segs[1..])
    else Climbs(depth + 1, segs[1..])
  }

  lemma {:induction false} ClimbStays(stack: seq<string>, segs: seq<string>)
    requires stack != [] && stack[0] == ".."
    ensures Walk(false, stack, segs) != [] && Walk(false, stack, segs)[0] == ".."
    decreases |segs|
  {
    if segs != [] {
      ClimbStays(Push(false, stack, segs[0]), segs[1..]);
    }
  }

  lemma {:induction false} WalkClimbs(stack: seq<string>, segs: seq<string>)
    requires AllNames(stack) && NoSlashes(segs)
    ensures var w := Walk(false, stack, segs); Climbs(|stack|, segs) <==> w != [] && w[0] == ".."
    decreases |segs|
  {
    if segs != [] {
      var next := Push(false, stack, segs[0]);
      if segs[0] == ".." && stack == [] {
        ClimbStays(next, segs[1..]);
      } else {
        WalkClimbs(next, segs[1..]);
      }
    }
  }

  lemma ClimbingRender(stack: seq<string>)
    requires StackForm(false, stack)
    ensures var c := Render(false, stack);
      !Rooted(c) && ((c == ".." || "../" <= c) <==> stack != [] && stack[0] == "..")
  {
    var c := Render(false, stack);
    if stack != [] {
      SegmentsOfJoin(stack);
      assert Segments(c)[0] == stack[0] != "";
      if "../" <= c {
        assert c == ".." + "/" + c[3..];
        SegmentsOfJoined("..", c[3..]);
        SegmentsOfOne("..");
      }
      if c == ".." { SegmentsOfOne(".."); }
      if stack[0] == ".." && |stack| > 1 { assert c == "../" + JoinSlash(stack[1..]); }
    }
  }

  lemma SlashesKeepFirst(key: string)
    ensures !("/" <= key || "\\" <= key) <==> !Rooted(Slashes(key))
  {
    assert "/" == ['/'] && "\\" == ['\\'];
  }

  /**
   A key is accepted exactly when it is not blank, has no leading separator or drive letter, and
   never climbs above its start; what is returned then spells the names left after the walk.
   */
  lemma AcceptedIff(key: string)
    ensures ValidateKey(key).Ok?
       <==> !Blank(key) && !Rooted(Slashes(key)) && !HasDriveLetter(key) && !Climbs(0, Segments(Slashes(key)))
    ensures ValidateKey(key).Ok? ==>
      AllNames(Kept(Slashes(key))) && ValidateKey(key).value == Render(false, Kept(Slashes(key)))
  {
    var path := Slashes(key);
    SlashesKeepFirst(key);
    if !Rooted(path) {
      var segs, stack := Segments(path), Kept(path);
      SegmentsHaveNoSlash(path);
      WalkForm(false, [], segs);
      WalkClimbs([], segs);
      ClimbingRender(stack);
      if stack == [] || stack[0] != ".." {
        forall i | 0 <= i < |stack| ensures Name(stack[i]) {
          if stack[i] == ".." { FirstClimb(stack, i); }
        }
      }
    }
  }

  /******* Normalising twice *******/

  lemma CleanOfRendered(stack: seq<string>)
    requires AllNames(stack)
    ensures Kept(Render(false, stack)) == stack && Clean(Render(false, stack)) == Render(false, stack)
  {
    RenderedSegments(stack);
    if stack == [] {
      assert Walk(false, [], ["."]) == Walk(false, Push(false, [], "."), []);
    } else {
      WalkNames(false, [], stack);
      assert [] + stack == stack;
    }
  }

  lemma {:induction false} JoinBytes(segs: seq<string>, c: char)
    requires c != '/' && forall i | 0 <= i < |segs| :: c !in segs[i]
    ensures c !in JoinSlash(segs)
  {
    if |segs| > 1 {
      JoinBytes(segs[1..], c);
    }
  }

  lemma {:induction false} SegmentBytes(path: string, c: char)
    requires c !in path
    ensures forall i | 0 <= i < |Segments(path)| :: c !in Segments(path)[i]
  {
    if path != "" {
      SegmentBytes(path[1..], c);
    }
  }

  lemma {:induction false} WalkBytes(rooted: bool, stack: seq<string>, segs: seq<string>, c: char)
    requires c != '.' && (forall i | 0 <= i < |stack| :: c !in stack[i])
      && (forall i | 0 <= i < |segs| :: c !in segs[i])
    ensures forall i | 0 <= i < |Walk(rooted, stack, segs)| :: c !in Walk(rooted, stack, segs)[i]
    decreases |segs|
  {
    if segs != [] {
      WalkBytes(rooted, Push(rooted, stack, segs[0]), segs[1..], c);
    }
  }

  lemma CleanHasNoBackslash(key: string)
    ensures '\\' !in Clean(Slashes(key))
  {
    var path := Slashes(key);
    SegmentBytes(path, '\\');
    WalkBytes(Rooted(path), [], Segments(path), '\\');
    JoinBytes(Kept(path), '\\');
  }

  lemma SlashesOfClean(c: string)
    requires '\\' !in c
    ensures Slashes(c) == c
  {
    assert forall i | 0 <= i < |c| :: c[i] in c;
  }

  /**
   Validating an accepted key's normal form again returns it unchanged, unless normalising has
   uncovered a drive letter or left only white space; then the second validation rejects it.
   */
  lemma RevalidationIff(key: string)
    requires ValidateKey(key).Ok?
    ensures var c := ValidateKey(key).value;
      && (ValidateKey(c) == Ok(c) <==> !HasDriveLetter(c) && !Blank(c))
      && (ValidateKey(c).Err? <==> HasDriveLetter(c) || Blank(c))
  {
    var c := ValidateKey(key).value;
    AcceptedIff(key);
    CleanOfRendered(Kept(Slashes(key)));
    CleanHasNoBackslash(key);
    SlashesOfClean(c);
    SlashesKeepFirst(c);
    RenderedSegments(Kept(Slashes(key)));
  }

  lemma PlainKey(key: string)
    requires key != "" && '!' <= key[0] <= '~' && '\\' !in key
    ensures !Blank(key) && Slashes(key) == key
  {
    assert SpaceLen(key) == 0;
    TrimRightKeepsHead(key);
    SlashesOfClean(key);
  }

  lemma DotSlashKeeps(name: string)
    requires Name(name)
    ensures Kept("./" + name) == [name]
  {
    assert "./" + name == "." + "/" + name;
    SegmentsOfJoined(".", name);
    SegmentsOfOne(".");
    SegmentsOfOne(name);
    WalkAppend(false, [], ["."], [name]);
    assert Walk(false, [], ["."]) == Walk(false, Push(false, [], "."), []) == [];
    WalkNames(false, [], [name]);
    assert [] + [name] == [name];
  }

  /** Both families are real: "./C:x" uncovers a drive letter, and "./ " leaves a space. */
  lemma RevalidationCanFail(name: string)
    requires Name(name) && '\\' !in name && (HasDriveLetter(name) || Blank(name))
    ensures ValidateKey("./" + name) == Ok(name) && ValidateKey(name).Err?
  {
    var key := "./" + name;
    assert key[0] == '.' && key[1] == '/' && key[2..] == name;
    PlainKey(key);
    DotSlashKeeps(name);
    ClimbingRender([name]);
  }

  lemma {:induction false} TrimRightKeepsHead(s: string)
    requires s != "" && '!' <= s[0] <= '~'
    ensures TrimRight(s) != ""
    decreases |s|
  {
    var n := TrailingSpaceLen(s);
    if n > 0 {
      TrailingSpaceIsNotHead(s);
      TrimRightKeepsHead(s[..|s|-n]);
    }
  }

  lemma TrailingSpaceIsNotHead(s: string)
    requires s != "" && '!' <= s[0] <= '~'
    ensures TrailingSpaceLen(s) < |s|
  {
    assert SpaceLen(s) == 0 && s[0..] == s;
  }

  /******* The two stores agree *******/

  /** Joining an accepted key below a base keeps the base's elements and appends the key's names. */
  lemma JoinComposes(base: string, key: string)
    requires base != "" && ValidateKey(key).Ok?
    ensures AllNames(Kept(Slashes(key))) && StackForm(Rooted(base), Kept(base) + Kept(Slashes(key)))
    ensures Join(base, ValidateKey(key).value) == Render(Rooted(base), Kept(base) + Kept(Slashes(key)))
  {
    var c, names := ValidateKey(key).value, Kept(Slashes(key));
    AcceptedIff(key);
    RenderedSegments(names);
    SegmentsOfJoined(base, c);
    assert Rooted(base + "/" + c) == Rooted(base);
    WalkAppend(Rooted(base), [], Segments(base), Segments(c));
    if names == [] {
      assert Walk(Rooted(base), Kept(base), ["."]) == Walk(Rooted(base), Kept(base), []);
      assert Kept(base) + names == Kept(base);
    } else {
      WalkNames(Rooted(base), Kept(base), names);
    }
    SegmentsHaveNoSlash(base);
    WalkForm(Rooted(base), [], Segments(base));
  }

  /** The form filepath.Abs leaves a root in. */
  predicate CleanRoot(root: string) {
    Rooted(root) && Clean(root) == root
  }

  lemma BelowSlash(names: seq<string>)
    requires AllNames(names) && names != []
    ensures var path := Render(true, names); path != "/" && !("//" <= path)
  {
    var rel := JoinSlash(names);
    SegmentsOfJoin(names);
    assert Segments(rel)[0] != "";
    assert rel[0] != '/';
    assert ("/" + rel)[1] == rel[0];
  }

  lemma BelowBase(base: seq<string>, names: seq<string>)
    requires base != [] && base[0] != "" && names != []
    ensures var root, path := Render(true, base), Render(true, base + names);
      root != "/" && path != root && root + "/" <= path
  {
    JoinSlashAppend(base, names);
    var root, path := "/" + JoinSlash(base), "/" + JoinSlash(base + names);
    assert path == root + "/" + JoinSlash(names);
    assert |JoinSlash(base)| > 0;
  }

  /** For a cleaned root, the containment check after joining can fail only for the root "/" itself. */
  lemma SecondCheckIff(root: string, key: string)
    requires CleanRoot(root) && ValidateKey(key).Ok?
    ensures Resolve(root, key).Err? <==> root == "/" && ValidateKey(key).value != "."
    ensures Resolve(root, key).Ok? ==> Resolve(root, key).value == Join(root, ValidateKey(key).value)
  {
    var names, base := Kept(Slashes(key)), Kept(root);
    JoinComposes(root, key);
    AcceptedIff(key);
    DotOnlyWhenEmpty(names);
    if names == [] {
      assert base + names == base;
    } else if base == [] {
      assert base + names == names;
      BelowSlash(names);
      assert root == "/" && root + "/" == "//";
    } else {
      assert (base + names)[0] == base[0];
      BelowBase(base, names);
    }
  }

  lemma DotOnlyWhenEmpty(names: seq<string>)
    requires AllNames(names)
    ensures Render(false, names) == "." <==> names == []
  {
    RenderedSegments(names);
    SegmentsOfOne(".");
  }

  lemma {:induction false} JoinSlashAppend(a: seq<string>, b: seq<string>)
    requires a != [] && b != []
    ensures JoinSlash(a + b) == JoinSlash(a) + "/" + JoinSlash(b)
  {
    if |a| == 1 {
      assert (a + b)[1..] == b;
    } else {
      assert (a + b)[1..] == a[1..] + b;
      JoinSlashAppend(a[1..], b);
      assert a[0] + "/" + (JoinSlash(a[1..]) + "/" + JoinSlash(b))
        == a[0] + "/" + JoinSlash(a[1..]) + "/" + JoinSlash(b);
    }
  }

  /** Two accepted keys name one object in the bucket exactly when they name one file on disk. */
  lemma BackendsAgree(root: string, prefix: string, k1: string, k2: string)
    requires CleanRoot(root) && root != "/"
    requires ValidateKey(k1).Ok? && ValidateKey(k2).Ok?
    ensures Resolve(root, k1).Ok? && Resolve(root, k2).Ok? && ObjectKey(prefix, k1).Ok? && ObjectKey(prefix, k2).Ok?
    ensures Resolve(root, k1) == Resolve(root, k2) <==> ObjectKey(prefix, k1) == ObjectKey(prefix, k2)
    ensures Resolve(root, k1) == Resolve(root, k2) <==> Kept(Slashes(k1)) == Kept(Slashes(k2))
  {
    SecondCheckIff(root, k1);
    SecondCheckIff(root, k2);
    SameUnder(root, k1, k2);
    if prefix != "" {
      SameUnder(prefix, k1, k2);
    } else {
      AcceptedIff(k1);
      AcceptedIff(k2);
      if ValidateKey(k1) == ValidateKey(k2) { RenderInjective(false, Kept(Slashes(k1)), Kept(Slashes(k2))); }
    }
  }

  lemma SameUnder(base: string, k1: string, k2: string)
    requires base != "" && ValidateKey(k1).Ok? && ValidateKey(k2).Ok?
    ensures Join(base, ValidateKey(k1).value) == Join(base, ValidateKey(k2).value)
      <==> Kept(Slashes(k1)) == Kept(Slashes(k2))
  {
    JoinComposes(base, k1);
    JoinComposes(base, k2);
    var b, n1, n2 := Kept(base), Kept(Slashes(k1)), Kept(Slashes(k2));
    if Render(Rooted(base), b + n1) == Render(Rooted(base), b + n2) {
      RenderInjective(Rooted(base), b + n1, b + n2);
      assert n1 == (b + n1)[|b|..] == (b + n2)[|b|..] == n2;
    }
  }

  /******* The keys uploads use *******/

  /** The text of a uuid: 36 hexadecimal digits and hyphens. */
  predicate UuidText(s: string) {
    |s| == 36 && forall i | 0 <= i < |s| :: '0' <= s[i] <= '9' || 'a' <= s[i] <= 'f' || s[i] == '-'
  }

  lemma UuidIsName(s: string)
    requires UuidText(s)
    ensures Name(s) && Name(s + ".pdf")
  {
  }

  lemma StorageKeySegments(u: string, f: string)
    requires UuidText(u) && UuidText(f)
    ensures Kept("uploads/" + u + "/" + f + ".pdf") == ["uploads", u, f + ".pdf"]
    ensures StorageKey(u, f) == JoinSlash(["uploads", u, f + ".pdf"])
  {
    var segs := ["uploads", u, f + ".pdf"];
    UuidIsName(u);
    UuidIsName(f);
    assert AllNames(segs);
    assert JoinSlash(segs[2..]) == f + ".pdf";
    assert JoinSlash(segs[1..]) == u + "/" + (f + ".pdf");
    assert JoinSlash(segs) == "uploads" + "/" + (u + "/" + (f + ".pdf"));
    assert "uploads/" + u + "/" + f + ".pdf" == JoinSlash(segs);
    CleanOfRendered(segs);
  }

  /** All keys of an upload lie below its own directory. */
  lemma StorageKeyPrefix(u: string, f: string)
    requires UuidText(u) && UuidText(f)
    ensures "uploads/" + u + "/" <= StorageKey(u, f)
  {
    var segs := ["uploads", u, f + ".pdf"];
    StorageKeySegments(u, f);
    assert JoinSlash(segs[2..]) == f + ".pdf";
    assert JoinSlash(segs[1..]) == u + "/" + (f + ".pdf");
    assert JoinSlash(segs) == "uploads" + "/" + (u + "/" + (f + ".pdf"));
    assert JoinSlash(segs) == "uploads/" + u + "/" + (f + ".pdf");
  }

  lemma StorageKeyIsPlain(u: string, f: string)
    requires UuidText(u) && UuidText(f)
    ensures var key := StorageKey(u, f);
      !Blank(key) && Slashes(key) == key && !HasDriveLetter(key) && !Rooted(key)
  {
    var key, segs := StorageKey(u, f), ["uploads", u, f + ".pdf"];
    StorageKeySegments(u, f);
    assert key == "uploads" + "/" + JoinSlash(segs[1..]);
    assert key[0] == 'u' && key[1] == 'p';
    JoinBytes(segs, '\\');
    PlainKey(key);
  }

  /** Upload keys pass validation unchanged. */
  lemma StorageKeyIsAccepted(u: string, f: string)
    requires UuidText(u) && UuidText(f)
    ensures ValidateKey(StorageKey(u, f)) == Ok(StorageKey(u, f))
  {
    var segs := ["uploads", u, f + ".pdf"];
    StorageKeySegments(u, f);
    StorageKeyIsPlain(u, f);
    UuidIsName(u);
    UuidIsName(f);
    assert AllNames(segs);
    CleanOfRendered(segs);
    ClimbingRender(segs);
  }

  /** Different files never share a key. */
  lemma StorageKeysAreDistinct(u1: string, f1: string, u2: string, f2: string)
    requires UuidText(u1) && UuidText(f1) && UuidText(u2) && UuidText(f2)
    ensures StorageKey(u1, f1) == StorageKey(u2, f2) ==> u1 == u2 && f1 == f2
  {
    StorageKeySegments(u1, f1);
    StorageKeySegments(u2, f2);
    var a, b := ["uploads", u1, f1 + ".pdf"], ["uploads", u2, f2 + ".pdf"];
    UuidIsName(u1);
    UuidIsName(f1);
    UuidIsName(u2);
    UuidIsName(f2);
    SegmentsOfJoin(a);
    SegmentsOfJoin(b);
    if a == b {
      assert a[1] == b[1] && a[2] == b[2];
      assert f1 == (f1 + ".pdf")[..36] && f2 == (f2 + ".pdf")[..36];
    }
  }
}
