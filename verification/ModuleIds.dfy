/** Module ids: the id provider, and the normalisation of relative ids by repeated rewriting, which is proved to
    compute the evaluation of the id on a stack. */
module ModuleIds {
  import LoaderState
  import opened Sequences
  import opened Slashes

  // ---------------------------------------------------------------- evaluation on a stack

  predicate IsName(x: string) {
    x != "" && x != "." && x != ".."
  }

  /** One folder segment: `.` does nothing, `..` takes back a name, anything else is put on top.  An empty
      segment is never taken back. */
  function Push(stack: seq<string>, x: string): seq<string> {
    if x == "." then stack
    else if x == ".." && stack != [] && IsName(Last(stack)) then Init(stack)
    else stack + [x]
  }

  function Evaluate(stack: seq<string>, folders: seq<string>): seq<string>
    decreases |folders|
  {
    if folders == [] then stack else Evaluate(Push(stack, folders[0]), folders[1..])
  }

  /** The folder segments are evaluated, the last segment is kept as it is. */
  function Normalized(s: string): string {
    var xs := Split(s);
    Join(Evaluate([], Init(xs)) + [Last(xs)])
  }

  lemma {:induction false} EvaluateConcat(stack: seq<string>, a: seq<string>, b: seq<string>)
    ensures Evaluate(stack, a + b) == Evaluate(Evaluate(stack, a), b)
    decreases |a|
  {
    if a == [] {
      assert a + b == b;
    } else {
      assert (a + b)[0] == a[0] && (a + b)[1..] == a[1..] + b;
      EvaluateConcat(Push(stack, a[0]), a[1..], b);
    }
  }

  lemma PushEvaluated(st: seq<string>, stack: seq<string>, x: string)
    ensures Evaluate(st, Push(stack, x)) == Push(Evaluate(st, stack), x)
  {
    if x == ".." && stack != [] && IsName(Last(stack)) {
      EvaluateConcat(st, Init(stack), [Last(stack)]);
      assert Init(stack) + [Last(stack)] == stack;
    } else if x != "." {
      EvaluateConcat(st, stack, [x]);
    }
  }

  lemma EvaluateLast(stack: seq<string>, folders: seq<string>, x: string)
    ensures Evaluate(stack, folders + [x]) == Push(Evaluate(stack, folders), x)
  {
    EvaluateConcat(stack, folders, [x]);
  }

  /** Evaluating what was evaluated is evaluating the original. */
  lemma {:induction false} EvaluateEvaluated(st: seq<string>, stack: seq<string>, folders: seq<string>)
    ensures Evaluate(st, Evaluate(stack, folders)) == Evaluate(st, stack + folders)
    decreases |folders|
  {
    if folders == [] {
      assert stack + folders == stack;
    } else {
      var init, x := Init(folders), Last(folders);
      assert folders == init + [x] && stack + folders == stack + init + [x];
      EvaluateLast(stack, init, x);
      PushEvaluated(st, Evaluate(stack, init), x);
      EvaluateEvaluated(st, stack, init);
      EvaluateLast(st, stack + init, x);
    }
  }

  /** Nothing left to evaluate: no `.`, and no `..` right after a name. */
  ghost predicate Reduced(xs: seq<string>) {
    && (forall i :: 0 <= i < |xs| ==> xs[i] != ".")
    && (forall i :: 0 <= i < |xs| - 1 && IsName(xs[i]) ==> xs[i + 1] != "..")
  }

  lemma {:induction false} EvaluateReduces(stack: seq<string>, folders: seq<string>)
    requires Reduced(stack)
    ensures Reduced(Evaluate(stack, folders))
    decreases |folders|
  {
    if folders != [] {
      EvaluateReduces(Push(stack, folders[0]), folders[1..]);
    }
  }

  lemma {:induction false} ReducedEvaluates(stack: seq<string>, folders: seq<string>)
    requires Reduced(stack + folders)
    ensures Evaluate(stack, folders) == stack + folders
    decreases |folders|
  {
    if folders == [] {
      assert stack + folders == stack;
    } else {
      var x := folders[0];
      assert (stack + folders)[|stack|] == x;
      assert stack != [] ==> (stack + folders)[|stack| - 1] == Last(stack);
      assert stack + [x] + folders[1..] == stack + folders;
      ReducedEvaluates(stack + [x], folders[1..]);
    }
  }

  lemma EvaluateSegments(stack: seq<string>, folders: seq<string>)
    requires forall x :: x in stack || x in folders ==> NoSlash(x)
    ensures forall x :: x in Evaluate(stack, folders) ==> NoSlash(x)
    decreases |folders|
  {
    if folders != [] {
      EvaluateSegments(Push(stack, folders[0]), folders[1..]);
    }
  }

  /** The segments of a normalised id. */
  lemma NormalizedSplit(s: string)
    ensures Split(Normalized(s)) == Evaluate([], Init(Split(s))) + [Last(Split(s))]
    ensures Reduced(Evaluate([], Init(Split(s))))
  {
    var xs := Split(s);
    EvaluateSegments([], Init(xs));
    EvaluateReduces([], Init(xs));
    var ys := Evaluate([], Init(xs)) + [Last(xs)];
    forall i | 0 <= i < |ys| ensures NoSlash(ys[i]) {
      if i < |ys| - 1 {
        assert ys[i] in Evaluate([], Init(xs));
      }
    }
    SplitJoin(ys);
  }

  // ---------------------------------------------------------------- the rewriting rules

  predicate LiteralAt(r: string, i: nat, lit: string) {
    i + |lit| <= |r| && r[i..i + |lit|] == lit
  }

  /** The alternatives of the patterns for a segment: one character; two of which one is not a dot; more. */
  predicate Alternative(x: string) {
    || |x| == 1
    || (|x| == 2 && x[1] != '.')
    || (|x| == 2 && x[0] != '.')
    || |x| >= 3
  }

  /** A segment and the `/../` after it match at `k`. */
  predicate UpAt(r: string, k: nat) {
    k <= |r| && Alternative(r[k..SegmentEnd(r, k)]) && LiteralAt(r, SegmentEnd(r, k), "/../")
  }

  /** `/./` matches at `i`. */
  predicate DotMatch(r: string, i: nat) {
    LiteralAt(r, i, "/./")
  }

  /** `/aa/../` matches at `i`. */
  predicate UpMatch(r: string, i: nat) {
    i < |r| && r[i] == '/' && UpAt(r, i + 1)
  }

  /** First position at which a pattern matches; `|r|` if there is none. */
  method FindDot(r: string) returns (i: nat)
    ensures i <= |r| && (i < |r| ==> DotMatch(r, i))
    ensures forall k: nat :: k < i ==> !DotMatch(r, k)
  {
    i := 0;
    while i < |r| && !DotMatch(r, i)
      invariant i <= |r| && forall k: nat :: k < i ==> !DotMatch(r, k)
    {
      i := i + 1;
    }
  }

  method FindUp(r: string) returns (i: nat)
    ensures i <= |r| && (i < |r| ==> UpMatch(r, i))
    ensures forall k: nat :: k < i ==> !UpMatch(r, k)
  {
    i := 0;
    while i < |r| && !UpMatch(r, i)
      invariant i <= |r| && forall k: nat :: k < i ==> !UpMatch(r, k)
    {
      i := i + 1;
    }
  }

  // ---------------------------------------------------------------- what a rule does to the segments

  lemma SplitLiteral(r: string, i: nat, x: string)
    requires NoSlash(x) && LiteralAt(r, i, "/" + x + "/")
    ensures Split(r[i + 1..]) == [x] + Split(r[i + 2 + |x|..])
  {
    LiteralParts(r, i, x, "/" + x + "/");
    SplitNoSlash(x);
    SplitConcat(x, r[i + 2 + |x|..]);
  }

  lemma LiteralParts(r: string, i: nat, x: string, lit: string)
    requires lit == "/" + x + "/" && LiteralAt(r, i, lit)
    ensures i + 2 + |x| <= |r| && r[i + 1..] == x + "/" + r[i + 2 + |x|..]
  {
    var j := i + 1 + |x|;
    assert forall k :: 0 <= k < |lit| ==> r[i + k] == r[i..i + |lit|][k] == lit[k];
    forall k | 0 <= k < |x| ensures r[i + 1..j][k] == x[k] {
      assert lit[1 + k] == x[k] && r[i + (1 + k)] == lit[1 + k];
    }
    assert r[i + 1..j] == x;
    assert r[j] == r[i + (1 + |x|)] == '/';
  }

  /** `/./` at `i`: a segment `.` between the segments before and after. */
  lemma DotSegments(r: string, i: nat)
    requires DotMatch(r, i)
    ensures Split(r) == Split(r[..i]) + ["."] + Split(r[i + 3..])
    ensures Split(r[..i] + "/" + r[i + 3..]) == Split(r[..i]) + Split(r[i + 3..])
  {
    assert r[i] == r[i..i + 3][0] == '/';
    SplitAt(r, i);
    DotLiteral();
    SplitLiteral(r, i, ".");
    SplitConcat(r[..i], r[i + 3..]);
    DotBetween(Split(r[..i]), Split(r[i + 3..]));
  }

  lemma DotLiteral()
    ensures "/" + "." + "/" == "/./" && NoSlash(".")
  {
  }

  lemma DotBetween(a: seq<string>, b: seq<string>)
    ensures a + (["."] + b) == a + ["."] + b
  {
  }

  /** A segment from `k` to `j` and `..`, in front of the segments after. */
  lemma UpSegments(r: string, k: nat, j: nat)
    requires k <= j <= |r| && NoSlash(r[k..j]) && LiteralAt(r, j, "/../")
    ensures Split(r[k..]) == [r[k..j], ".."] + Split(r[j + 4..])
  {
    assert r[j] == r[j..j + 4][0] == '/';
    FirstSegment(r, k, j);
    UpLiteral();
    SplitLiteral(r, j, "..");
    PairInFront(r[k..j], "..", Split(r[j + 4..]));
  }

  lemma FirstSegment(r: string, k: nat, j: nat)
    requires k <= j < |r| && NoSlash(r[k..j]) && r[j] == '/'
    ensures Split(r[k..]) == [r[k..j]] + Split(r[j + 1..])
  {
    assert r[k..] == r[k..j] + "/" + r[j + 1..];
    SplitConcat(r[k..j], r[j + 1..]);
    SplitNoSlash(r[k..j]);
  }

  lemma UpLiteral()
    ensures "/" + ".." + "/" == "/../" && NoSlash("..")
  {
  }

  lemma PairInFront(x: string, y: string, rest: seq<string>)
    ensures [x] + ([y] + rest) == [x, y] + rest
  {
  }

  /** Any folder segment is followed by a slash. */
  lemma {:induction false} SegmentAt(r: string, k: nat)
    requires 1 <= k < |Split(r)|
    ensures var xs := Split(r);
            var i := |Join(xs[..k])|;
            i < |r| && r[i] == '/' && Split(r[i + 1..]) == xs[k..]
  {
    var xs := Split(r);
    JoinSplit(r);
    assert xs == xs[..k] + xs[k..];
    JoinConcat(xs[..k], xs[k..]);
    var i := |Join(xs[..k])|;
    assert r[i + 1..] == Join(xs[k..]);
    SplitJoin(xs[k..]);
  }

  lemma LiteralSegment(r: string, k: nat, x: string)
    requires k <= |r| && |Split(r[k..])| >= 2 && Split(r[k..])[0] == x
    ensures SegmentEnd(r, k) == k + |x| < |r| && r[k..k + |x|] == x && r[k + |x|] == '/'
    ensures Split(r[k + |x| + 1..]) == Split(r[k..])[1..]
  {
    SplitFirst(r, k);
    HeadAndTail(r[k..SegmentEnd(r, k)], if SegmentEnd(r, k) < |r| then Split(r[SegmentEnd(r, k) + 1..]) else []);
  }

  lemma HeadAndTail<T>(x: T, xs: seq<T>)
    ensures ([x] + xs)[0] == x && ([x] + xs)[1..] == xs && |[x] + xs| == 1 + |xs|
  {
  }

  /** A folder segment `.` other than the first makes the first pattern match. */
  lemma DotSegmentMatches(r: string, k: nat) returns (i: nat)
    requires 1 <= k < |Split(r)| - 1 && Split(r)[k] == "."
    ensures i < |r| && DotMatch(r, i)
  {
    SegmentAt(r, k);
    i := |Join(Split(r)[..k])|;
    LiteralSegment(r, i + 1, ".");
    OneDot(r, i);
  }

  lemma OneDot(r: string, i: nat)
    requires i + 2 < |r| && r[i] == '/' && r[i + 1..i + 2] == "." && r[i + 2] == '/'
    ensures DotMatch(r, i)
  {
    assert r[i..i + 3] == [r[i]] + r[i + 1..i + 2] + [r[i + 2]];
  }

  lemma FirstDotMatches(r: string)
    requires |Split(r)| >= 2 && Split(r)[0] == "."
    ensures LiteralAt(r, 0, "./")
  {
    assert r[0..] == r;
    LiteralSegment(r, 0, ".");
    SplitFirst(r, 0);
    assert r[0] == r[0..1][0] == '.';
  }

  /** A name followed by `..` and another segment makes the pattern match where the name starts. */
  lemma UpAtSegment(r: string, k: nat)
    requires k <= |r| && |Split(r[k..])| >= 3 && IsName(Split(r[k..])[0]) && Split(r[k..])[1] == ".."
    ensures UpAt(r, k)
  {
    var x := Split(r[k..])[0];
    LiteralSegment(r, k, x);
    LiteralSegment(r, k + |x| + 1, "..");
    TwoDots(r, k + |x|);
  }

  lemma TwoDots(r: string, j: nat)
    requires j + 3 < |r| && r[j] == '/' && r[j + 1..j + 3] == ".." && r[j + 3] == '/'
    ensures LiteralAt(r, j, "/../")
  {
    assert r[j..j + 4] == [r[j]] + r[j + 1..j + 3] + [r[j + 3]];
  }

  lemma UpSegmentMatches(r: string, k: nat) returns (i: nat)
    requires 1 <= k < |Split(r)| - 2 && IsName(Split(r)[k]) && Split(r)[k + 1] == ".."
    ensures i < |r| && UpMatch(r, i)
  {
    SegmentAt(r, k);
    i := |Join(Split(r)[..k])|;
    UpAtSegment(r, i + 1);
  }

  // ---------------------------------------------------------------- evaluation under the rules

  lemma DropDot(a: seq<string>, b: seq<string>)
    ensures Evaluate([], a + ["."] + b) == Evaluate([], a + b)
  {
    EvaluateConcat([], a, b);
    EvaluateConcat([], a, ["."] + b);
    assert a + ["."] + b == a + (["."] + b);
    assert (["."] + b)[1..] == b;
  }

  lemma PushThenUp(stack: seq<string>, x: string, b: seq<string>)
    requires IsName(x)
    ensures Evaluate(stack, [x, ".."] + b) == Evaluate(stack, b)
  {
    assert ([x, ".."] + b)[1..] == [".."] + b && ([".."] + b)[1..] == b;
    assert Push(Push(stack, x), "..") == stack;
  }

  lemma DropUp(a: seq<string>, x: string, b: seq<string>)
    requires IsName(x)
    ensures Evaluate([], a + [x, ".."] + b) == Evaluate([], a + b)
  {
    EvaluateConcat([], a, b);
    EvaluateConcat([], a, [x, ".."] + b);
    assert a + [x, ".."] + b == a + ([x, ".."] + b);
    PushThenUp(Evaluate([], a), x, b);
  }

  /** Two ids have the same evaluation. */
  ghost predicate SameValue(r: string, s: string) {
    && Evaluate([], Init(Split(r))) == Evaluate([], Init(Split(s)))
    && Last(Split(r)) == Last(Split(s))
  }

  lemma DotRule(r: string, i: nat)
    requires DotMatch(r, i)
    ensures SameValue(r[..i] + "/" + r[i + 3..], r)
  {
    DotSegments(r, i);
    var a, b := Split(r[..i]), Split(r[i + 3..]);
    assert Init(a + ["."] + b) == a + ["."] + Init(b) && Init(a + b) == a + Init(b);
    DropDot(a, Init(b));
  }

  /** Evaluation does not see a name with the `..` after it, wherever it stands. */
  lemma {:induction false} SkipUp(r: string, r': string, a: seq<string>, x: string, b: seq<string>)
    requires |b| >= 1 && Split(r) == a + [x, ".."] + b && Split(r') == a + b
    requires "." !in Init(Split(r)) && Alternative(x)
    ensures SameValue(r', r) && "." !in Init(Split(r')) && IsName(x)
  {
    assert Init(Split(r)) == a + [x, ".."] + Init(b) && Init(a + b) == a + Init(b);
    assert (a + [x, ".."] + Init(b))[|a|] == x;
    DropUp(a, x, Init(b));
    forall y | y in a + Init(b) ensures y in Init(Split(r)) {
      assert y in a || y in Init(b);
    }
  }

  lemma UpRule(r: string, i: nat, j: nat)
    requires i < |r| && r[i] == '/' && i + 1 <= j <= |r| && NoSlash(r[i + 1..j]) && LiteralAt(r, j, "/../")
    requires Alternative(r[i + 1..j]) && "." !in Init(Split(r))
    ensures var r' := r[..i] + "/" + r[j + 4..]; SameValue(r', r) && "." !in Init(Split(r'))
  {
    var x, a, b := r[i + 1..j], Split(r[..i]), Split(r[j + 4..]);
    SplitAt(r, i);
    UpSegments(r, i + 1, j);
    SplitConcat(r[..i], r[j + 4..]);
    assert a + ([x, ".."] + b) == a + [x, ".."] + b;
    SkipUp(r, r[..i] + "/" + r[j + 4..], a, x, b);
  }

  lemma {:induction false} FirstDotRule(r: string)
    requires LiteralAt(r, 0, "./")
    requires forall k :: 1 <= k < |Split(r)| - 1 ==> Split(r)[k] != "."
    ensures SameValue(r[2..], r) && "." !in Init(Split(r[2..]))
  {
    assert r[0] == r[..2][0] == '.' && r[1] == r[..2][1] == '/';
    SplitAt(r, 1);
    assert r[..1] == ".";
    SplitNoSlash(".");
    SkipFirstDot(r, r[2..]);
  }

  lemma {:induction false} SkipFirstDot(r: string, r': string)
    requires Split(r) == ["."] + Split(r')
    requires forall k :: 1 <= k < |Split(r)| - 1 ==> Split(r)[k] != "."
    ensures SameValue(r', r) && "." !in Init(Split(r'))
  {
    var b := Split(r');
    assert Init(Split(r)) == ["."] + Init(b);
    DropFirstDot(Init(b));
    forall k | 0 <= k < |Init(b)| ensures Init(b)[k] != "." {
      assert Split(r)[k + 1] == b[k];
    }
  }

  lemma DropFirstDot(b: seq<string>)
    ensures Evaluate([], ["."] + b) == Evaluate([], b)
  {
    assert (["."] + b)[1..] == b;
  }

  lemma {:induction false} SkipFirstUp(r: string, r': string, x: string)
    requires Split(r) == [x, ".."] + Split(r')
    requires "." !in Init(Split(r)) && Alternative(x)
    ensures SameValue(r', r)
  {
    var b := Split(r');
    assert [] + [x, ".."] == [x, ".."] && [] + b == b;
    SkipUp(r, r', [], x, b);
  }

  lemma {:induction false} FirstUpRule(r: string, j: nat)
    requires j <= |r| && NoSlash(r[..j]) && LiteralAt(r, j, "/../") && Alternative(r[..j]) && "." !in Init(Split(r))
    ensures SameValue(r[j + 4..], r) && Split(r) == [r[..j], ".."] + Split(r[j + 4..])
  {
    assert r[0..] == r && r[0..j] == r[..j];
    UpSegments(r, 0, j);
    SkipFirstUp(r, r[j + 4..], r[..j]);
  }

  // ---------------------------------------------------------------- the rewriting loop

  method DropDots(moduleId: string) returns (r: string)
    ensures SameValue(r, moduleId) && "." !in Init(Split(r))
  {
    r := moduleId;
    var i: nat := FindDot(r);
    while i < |r|
      invariant i <= |r| && (i < |r| ==> DotMatch(r, i))
      invariant forall k: nat :: k < i ==> !DotMatch(r, k)
      invariant SameValue(r, moduleId)
      decreases |r|
    {
      DotRule(r, i);
      r := r[..i] + "/" + r[i + 3..];
      i := FindDot(r);
    }
    forall k | 1 <= k < |Split(r)| - 1 ensures Split(r)[k] != "." {
      if Split(r)[k] == "." {
        var at := DotSegmentMatches(r, k);
      }
    }
    if LiteralAt(r, 0, "./") {
      FirstDotRule(r);
      r := r[2..];
    } else if |Split(r)| >= 2 && Split(r)[0] == "." {
      FirstDotMatches(r);
    }
  }

  /** No name is left in front of a `..`, except perhaps the first segment. */
  ghost predicate UpsDone(r: string) {
    forall k :: 1 <= k < |Split(r)| - 2 && IsName(Split(r)[k]) ==> Split(r)[k + 1] != ".."
  }

  method DropUps(moduleId: string) returns (r: string)
    requires "." !in Init(Split(moduleId))
    ensures SameValue(r, moduleId) && "." !in Init(Split(r)) && UpsDone(r)
  {
    r := moduleId;
    var i: nat := FindUp(r);
    while i < |r|
      invariant i <= |r| && (i < |r| ==> UpMatch(r, i))
      invariant forall k: nat :: k < i ==> !UpMatch(r, k)
      invariant SameValue(r, moduleId) && "." !in Init(Split(r))
      decreases |r|
    {
      r := ReplaceUp(r, i);
      i := FindUp(r);
    }
    NoMatchIsDone(r);
  }

  /** One replacement at a match. */
  method ReplaceUp(r: string, i: nat) returns (r': string)
    requires "." !in Init(Split(r)) && UpMatch(r, i)
    ensures SameValue(r', r) && "." !in Init(Split(r')) && |r'| < |r|
  {
    var j := SegmentEnd(r, i + 1);
    UpRule(r, i, j);
    r' := r[..i] + "/" + r[j + 4..];
  }

  lemma NoMatchIsDone(r: string)
    requires "." !in Init(Split(r)) && forall k: nat :: k < |r| ==> !UpMatch(r, k)
    ensures UpsDone(r)
  {
    forall k | 1 <= k < |Split(r)| - 2 && IsName(Split(r)[k]) ensures Split(r)[k + 1] != ".." {
      if Split(r)[k + 1] == ".." {
        var at := UpSegmentMatches(r, k);
      }
    }
  }

  lemma ReducedIsNormalized(r: string, s: string)
    requires SameValue(r, s) && Reduced([] + Init(Split(r)))
    ensures r == Normalized(s)
  {
    ReducedEvaluates([], Init(Split(r)));
    assert [] + Init(Split(r)) == Init(Split(r));
    Rejoin(r, Evaluate([], Init(Split(s))), Last(Split(s)));
  }

  /** The last replacement, which is made once, at the front. */
  method DropFirstUp(moduleId: string) returns (r: string)
    requires "." !in Init(Split(moduleId)) && UpsDone(moduleId)
    ensures SameValue(r, moduleId) && Reduced([] + Init(Split(r)))
  {
    r := moduleId;
    if UpAt(r, 0) {
      var j := SegmentEnd(r, 0);
      r := r[j + 4..];
      FirstUpDone(moduleId, j, r);
    } else {
      DoneWithoutFirst(r);
    }
  }

  lemma FirstUpDone(r: string, j: nat, rest: string)
    requires UpAt(r, 0) && j == SegmentEnd(r, 0) && rest == r[j + 4..]
    requires "." !in Init(Split(r)) && UpsDone(r)
    ensures SameValue(rest, r) && Reduced([] + Init(Split(rest)))
  {
    assert r[0..j] == r[..j];
    FirstUpRule(r, j);
    AfterFirstUp(Split(r), r[..j], Split(rest));
  }

  /** What is left behind the first two segments is reduced. */
  lemma AfterFirstUp(all: seq<string>, x: string, rest: seq<string>)
    requires |rest| >= 1 && all == [x, ".."] + rest && "." !in Init(all)
    requires forall k :: 1 <= k < |all| - 2 && IsName(all[k]) ==> all[k + 1] != ".."
    ensures Reduced([] + Init(rest))
  {
    forall i | 0 <= i < |Init(rest)| ensures Init(rest)[i] != "." {
      assert Init(rest)[i] == Init(all)[i + 2] && Init(all)[i + 2] in Init(all);
    }
    forall i | 0 <= i < |Init(rest)| - 1 && IsName(Init(rest)[i]) ensures Init(rest)[i + 1] != ".." {
      assert Init(rest)[i] == all[i + 2] && Init(rest)[i + 1] == all[i + 3];
    }
  }

  /** `_normalizeModuleId`. */
  method NormalizeModuleId(moduleId: string) returns (r: string)
    ensures r == Normalized(moduleId)
  {
    r := DropDots(moduleId);
    r := DropUps(r);
    r := DropFirstUp(r);
    ReducedIsNormalized(r, moduleId);
  }

  lemma DoneWithoutFirst(r: string)
    requires !UpAt(r, 0) && "." !in Init(Split(r)) && UpsDone(r)
    ensures Reduced([] + Init(Split(r)))
  {
    var xs := Split(r);
    if |xs| >= 3 && IsName(xs[0]) && xs[1] == ".." {
      assert r[0..] == r;
      UpAtSegment(r, 0);
    }
    forall i | 0 <= i < |Init(xs)| ensures Init(xs)[i] != "." {
      assert Init(xs)[i] in Init(xs);
    }
  }

  // ---------------------------------------------------------------- what normalisation preserves

  /** Following one folder segment from the directory `dir`; the root is its own parent. */
  function Go(dir: seq<string>, x: string): seq<string> {
    if x == "." then dir
    else if x == ".." then if dir == [] then [] else Init(dir)
    else dir + [x]
  }

  function GoAll(dir: seq<string>, folders: seq<string>): seq<string> {
    if folders == [] then dir else Go(GoAll(dir, Init(folders)), Last(folders))
  }

  lemma GoAllStep(dir: seq<string>, folders: seq<string>, x: string)
    ensures GoAll(dir, folders + [x]) == Go(GoAll(dir, folders), x)
  {
    assert Init(folders + [x]) == folders;
  }

  lemma GoPush(dir: seq<string>, stack: seq<string>, x: string)
    ensures GoAll(dir, Push(stack, x)) == Go(GoAll(dir, stack), x)
  {
    if x == ".." && stack != [] && IsName(Last(stack)) {
      GoAllStep(dir, Init(stack), Last(stack));
      assert Init(stack) + [Last(stack)] == stack;
    } else if x != "." {
      GoAllStep(dir, stack, x);
    }
  }

  lemma {:induction false} GoEvaluate(dir: seq<string>, stack: seq<string>, folders: seq<string>)
    ensures GoAll(dir, Evaluate(stack, folders)) == GoAll(dir, stack + folders)
    decreases |folders|
  {
    if folders == [] {
      assert stack + folders == stack;
    } else {
      var init, x := Init(folders), Last(folders);
      assert folders == init + [x] && stack + folders == stack + init + [x];
      EvaluateLast(stack, init, x);
      GoPush(dir, Evaluate(stack, init), x);
      GoEvaluate(dir, stack, init);
      GoAllStep(dir, stack + init, x);
    }
  }

  lemma {:induction false} GoConcat(dir: seq<string>, a: seq<string>, b: seq<string>)
    ensures GoAll(dir, a + b) == GoAll(GoAll(dir, a), b)
    decreases |b|
  {
    if b == [] {
      assert a + b == a;
    } else {
      GoConcat(dir, a, Init(b));
      assert Init(a + b) == a + Init(b);
    }
  }

  /** A normalised id leads to the same place as the id, from every directory. */
  lemma NormalizedLeadsToSame(s: string, dir: seq<string>)
    ensures GoAll(dir, Init(Split(Normalized(s)))) == GoAll(dir, Init(Split(s)))
    ensures Last(Split(Normalized(s))) == Last(Split(s))
  {
    NormalizedSplit(s);
    var xs := Split(s);
    InitLast(Evaluate([], Init(xs)), Last(xs));
    GoEvaluate(dir, [], Init(xs));
    assert [] + Init(xs) == Init(xs);
  }

  lemma InitLast<T>(xs: seq<T>, x: T)
    ensures Init(xs + [x]) == xs && Last(xs + [x]) == x
  {
  }

  function Ups(k: nat): (xs: seq<string>)
    ensures |xs| == k && forall i :: 0 <= i < k ==> xs[i] == ".."
  {
    seq(k, _ => "..")
  }

  ghost predicate Names(xs: seq<string>) {
    forall i :: 0 <= i < |xs| ==> IsName(xs[i])
  }

  lemma LastIsName(xs: seq<string>, k: nat)
    requires k < |xs| && Names(xs[k..])
    ensures IsName(xs[|xs| - 1])
  {
    assert xs[k..][|xs| - 1 - k] == xs[|xs| - 1];
  }

  /** Without empty segments a reduced list is a run of `..` followed by names. */
  lemma {:induction false} ReducedShape(xs: seq<string>) returns (k: nat)
    requires Reduced(xs) && "" !in xs
    ensures k <= |xs| && xs[..k] == Ups(k) && Names(xs[k..])
  {
    if xs == [] {
      k := 0;
    } else {
      var init := Init(xs);
      k := ReducedShape(init);
      if Last(xs) == ".." {
        if k < |init| {
          LastIsName(init, k);
        }
        assert k == |init|;
        assert xs == Ups(k + 1);
        k := k + 1;
      } else {
        assert xs[..k] == init[..k];
        forall i | 0 <= i < |xs[k..]| ensures IsName(xs[k..][i]) {
          if i < |init| - k {
            assert xs[k..][i] == init[k..][i];
          } else {
            assert xs[k..][i] == Last(xs) && Last(xs) in xs;
          }
        }
      }
    }
  }

  /** The segments of a normalised id without empty folder segments: no `.`, and `..` only at the front. */
  lemma NormalizedShape(s: string) returns (k: nat)
    requires "" !in Init(Split(s)) && IsName(Last(Split(s)))
    ensures var ys := Split(Normalized(s)); k < |ys| && ys[..k] == Ups(k) && Names(ys[k..])
  {
    NormalizedSplit(s);
    var xs := Split(s);
    var st := Evaluate([], Init(xs));
    EvaluateNonempty([], Init(xs));
    k := ReducedShape(st);
    var ys := st + [Last(xs)];
    assert ys[..k] == st[..k];
    forall i | 0 <= i < |ys[k..]| ensures IsName(ys[k..][i]) {
      if i < |st| - k {
        assert ys[k..][i] == st[k..][i];
      }
    }
  }

  lemma {:induction false} EvaluateNonempty(stack: seq<string>, folders: seq<string>)
    requires "" !in stack && "" !in folders
    ensures "" !in Evaluate(stack, folders)
    decreases |folders|
  {
    if folders != [] {
      assert forall x :: x in folders[1..] ==> x in folders;
      assert folders[0] in folders;
      EvaluateNonempty(Push(stack, folders[0]), folders[1..]);
    }
  }

  lemma NormalizedIdempotent(s: string)
    ensures Normalized(Normalized(s)) == Normalized(s)
  {
    NormalizedSplit(s);
    var st := Evaluate([], Init(Split(s)));
    assert [] + Init(st + [Last(Split(s))]) == st;
    ReducedIsNormalized(Normalized(s), Normalized(s));
  }

  lemma {:induction false} GoUps(dir: seq<string>, k: nat)
    requires k <= |dir|
    ensures GoAll(dir, Ups(k)) == dir[..|dir| - k]
  {
    if k > 0 {
      GoUps(dir, k - 1);
      assert Ups(k) == Ups(k - 1) + [".."];
      GoAllStep(dir, Ups(k - 1), "..");
    } else {
      assert Ups(0) == [] && dir[..|dir|] == dir;
    }
  }

  lemma {:induction false} GoNames(dir: seq<string>, names: seq<string>)
    requires Names(names)
    ensures GoAll(dir, names) == dir + names
  {
    if names == [] {
      assert dir + names == dir;
    } else {
      GoNames(dir, Init(names));
      assert dir + Init(names) + [Last(names)] == dir + names;
    }
  }

  lemma {:induction false} GoShape(dir: seq<string>, xs: seq<string>, k: nat)
    requires k <= |xs| && k <= |dir| && xs[..k] == Ups(k) && Names(xs[k..])
    ensures GoAll(dir, xs) == dir[..|dir| - k] + xs[k..]
  {
    assert xs == xs[..k] + xs[k..];
    GoConcat(dir, xs[..k], xs[k..]);
    GoUps(dir, k);
    GoNames(dir[..|dir| - k], xs[k..]);
  }

  /** A directory from which two runs of `..` of different lengths lead to different places. */
  lemma {:induction false} Distinguish(xs: seq<string>, j: nat, ys: seq<string>, k: nat) returns (dir: seq<string>)
    requires j <= |xs| && xs[..j] == Ups(j) && Names(xs[j..])
    requires k <= |ys| && ys[..k] == Ups(k) && Names(ys[k..])
    requires j < k
    ensures GoAll(dir, xs) != GoAll(dir, ys)
  {
    var n := ys[k..];
    var c := if n == [] then "" else n[0] + "x";
    assert n != [] ==> c != n[0];
    dir := seq(k, _ => c);
    GoShape(dir, xs, j);
    GoShape(dir, ys, k);
    assert GoAll(dir, xs)[0] == c;
    assert GoAll(dir, ys) == n;
  }

  /** Normal forms are canonical: two ids without empty folder segments have the same normal form exactly when
      they end in the same segment and lead to the same place from every directory. */
  lemma {:induction false} NormalFormIsCanonical(s: string, t: string)
    requires "" !in Init(Split(s)) && "" !in Init(Split(t))
    ensures Normalized(s) == Normalized(t) <==>
              Last(Split(s)) == Last(Split(t))
              && forall dir :: GoAll(dir, Init(Split(s))) == GoAll(dir, Init(Split(t)))
  {
    if Normalized(s) == Normalized(t) {
      forall dir ensures GoAll(dir, Init(Split(s))) == GoAll(dir, Init(Split(t))) {
        NormalizedLeadsToSame(s, dir);
        NormalizedLeadsToSame(t, dir);
      }
      NormalizedLeadsToSame(s, []);
      NormalizedLeadsToSame(t, []);
    } else {
      DifferentFormsDiffer(s, t);
    }
  }

  lemma DifferentFormsDiffer(s: string, t: string)
    requires "" !in Init(Split(s)) && "" !in Init(Split(t))
    requires Normalized(s) != Normalized(t)
    ensures Last(Split(s)) != Last(Split(t)) || exists dir :: GoAll(dir, Init(Split(s))) != GoAll(dir, Init(Split(t)))
  {
    var xs, ys := Evaluate([], Init(Split(s))), Evaluate([], Init(Split(t)));
    if Last(Split(s)) == Last(Split(t)) {
      NormalizedSplit(s);
      NormalizedSplit(t);
      EvaluateNonempty([], Init(Split(s)));
      EvaluateNonempty([], Init(Split(t)));
      assert xs != ys;
      var dir := SeparatingDir(xs, ys);
      GoEvaluate(dir, [], Init(Split(s)));
      GoEvaluate(dir, [], Init(Split(t)));
      assert [] + Init(Split(s)) == Init(Split(s)) && [] + Init(Split(t)) == Init(Split(t));
    }
  }

  lemma SeparatingDir(xs: seq<string>, ys: seq<string>) returns (dir: seq<string>)
    requires Reduced(xs) && Reduced(ys) && "" !in xs && "" !in ys && xs != ys
    ensures GoAll(dir, xs) != GoAll(dir, ys)
  {
    var j := ReducedShape(xs);
    var k := ReducedShape(ys);
    if j < k {
      dir := Distinguish(xs, j, ys, k);
    } else if k < j {
      dir := Distinguish(ys, k, xs, j);
    } else {
      dir := Ups(j);
      SameUpsDiffer(dir, xs, ys, j);
    }
  }

  lemma {:induction false} SameUpsDiffer(dir: seq<string>, xs: seq<string>, ys: seq<string>, k: nat)
    requires k <= |xs| && xs[..k] == Ups(k) && Names(xs[k..])
    requires k <= |ys| && ys[..k] == Ups(k) && Names(ys[k..])
    requires xs != ys && |dir| == k
    ensures GoAll(dir, xs) != GoAll(dir, ys)
  {
    var a, b := xs[k..], ys[k..];
    assert GoAll(dir, xs) == a by { GoShape(dir, xs, k); assert dir[..0] + a == a; }
    assert GoAll(dir, ys) == b by { GoShape(dir, ys, k); assert dir[..0] + b == b; }
  }

  // ---------------------------------------------------------------- resolving relative ids

  predicate IsAbsolutePath(url: string) {
    StartsWith(url, "http://") || StartsWith(url, "https://") || StartsWith(url, "file://") || StartsWith(url, "/")
  }

  lemma RelativeIsNotAbsolute(id: string)
    ensures StartsWith(id, "./") || StartsWith(id, "../") ==> !IsAbsolutePath(id)
  {
    FirstChar(id, "./");
    FirstChar(id, "../");
    FirstChar(id, "http://");
    FirstChar(id, "https://");
    FirstChar(id, "file://");
    FirstChar(id, "/");
  }

  lemma FirstChar(s: string, prefix: string)
    requires prefix != ""
    ensures StartsWith(s, prefix) ==> s[0] == prefix[0]
  {
    assert StartsWith(s, prefix) ==> s[..|prefix|][0] == s[0];
  }

  /** Resolves the ids that one module mentions. */
  class ModuleIdResolver {
    var fromModulePath: string

    /** The path is the id up to and including its last slash: its folder segments, without the last segment. */
    constructor (fromModuleId: string)
      ensures fromModulePath + Last(Split(fromModuleId)) == fromModuleId
      ensures Split(fromModulePath) == Init(Split(fromModuleId)) + [""]
      ensures fromModulePath == "" || Last(fromModulePath) == '/'
    {
      var k: nat := |fromModuleId|;
      while k > 0 && fromModuleId[k - 1] != '/'
        invariant k <= |fromModuleId| && NoSlash(fromModuleId[k..])
      {
        k := k - 1;
        assert fromModuleId[k..] == [fromModuleId[k]] + fromModuleId[k + 1..];
      }
      fromModulePath := fromModuleId[..k];
      assert fromModuleId == fromModuleId[..k] + fromModuleId[k..];
      LastSegment(fromModuleId[..k], fromModuleId[k..]);
    }

    /** An id that begins with `./` or `../` is resolved: it leads where it leads from the directory of the module,
        with the same last segment, in its only form without `.` and inner `..`.  Any other id stays. */
    method ResolveModule(moduleId: string) returns (result: string)
      requires fromModulePath == "" || Last(fromModulePath) == '/'
      ensures var relative := StartsWith(moduleId, "./") || StartsWith(moduleId, "../");
              && (!relative ==> result == moduleId)
              && (relative ==>
                    && result == Normalized(fromModulePath + moduleId)
                    && Last(Split(result)) == Last(Split(moduleId))
                    && LeadsFrom(fromModulePath, moduleId, result))
    {
      result := moduleId;
      RelativeIsNotAbsolute(moduleId);
      if !IsAbsolutePath(result) {
        if StartsWith(result, "./") || StartsWith(result, "../") {
          result := NormalizeModuleId(fromModulePath + result);
          ResolvedLeads(fromModulePath, moduleId);
          ResolvedLast(fromModulePath, moduleId);
        }
      }
    }
  }

  /** Resolving from a module leads where the id leads from the directory of that module. */
  lemma ResolvedFromModuleDir(path: string, id: string, root: seq<string>)
    requires path == "" || Last(path) == '/'
    ensures GoAll(root, Init(Split(Normalized(path + id)))) == GoAll(GoAll(root, Init(Split(path))), Init(Split(id)))
  {
    NormalizedLeadsToSame(path + id, root);
    if path == "" {
      assert path + id == id;
    } else {
      EndsWithSlash(path);
      SplitConcat(Init(path), id);
      SplitTrailing(Init(path));
      SplitDir(Init(path), id, root);
    }
  }

  /** From every directory the result leads where the id leads from the folders of the path. */
  ghost predicate LeadsFrom(path: string, id: string, result: string) {
    forall root ::
      GoAll(root, Init(Split(result))) == GoAll(GoAll(root, Init(Split(path))), Init(Split(id)))
  }

  lemma ResolvedLeads(path: string, id: string)
    requires path == "" || Last(path) == '/'
    ensures LeadsFrom(path, id, Normalized(path + id))
  {
    forall root {
      ResolvedFromModuleDir(path, id, root);
    }
  }

  lemma ResolvedLast(path: string, id: string)
    requires path == "" || Last(path) == '/'
    ensures Last(Split(Normalized(path + id))) == Last(Split(id))
  {
    NormalizedSplit(path + id);
    if path == "" {
      assert path + id == id;
    } else {
      EndsWithSlash(path);
      SplitConcat(Init(path), id);
    }
  }

  lemma SplitDir(a: string, id: string, root: seq<string>)
    requires Split(a + "/" + id) == Split(a) + Split(id) && Split(a + "/") == Split(a) + [""]
    ensures GoAll(root, Init(Split(a + "/" + id))) == GoAll(GoAll(root, Init(Split(a + "/"))), Init(Split(id)))
  {
    assert Init(Split(a) + [""]) == Split(a);
    assert Init(Split(a) + Split(id)) == Split(a) + Init(Split(id));
    GoConcat(root, Split(a), Init(Split(id)));
  }

  // ---------------------------------------------------------------- the id provider

  /** Hands out consecutive integers for strings, and the strings back. */
  class ModuleIdProvider {
    var strModuleIdToInt: map<string, nat>
    var intToStrModuleId: seq<string>

    /** The two tables are inverse to each other. */
    ghost predicate Valid()
      reads this
    {
      && (forall s :: s in strModuleIdToInt ==>
            strModuleIdToInt[s] < |intToStrModuleId| && intToStrModuleId[strModuleIdToInt[s]] == s)
      && (forall i :: 0 <= i < |intToStrModuleId| ==>
            intToStrModuleId[i] in strModuleIdToInt && strModuleIdToInt[intToStrModuleId[i]] == i)
    }

    /** The special keys get the ids 0, 1 and 2. */
    constructor ()
      ensures Valid() && intToStrModuleId == ["exports", "module", "require"]
    {
      strModuleIdToInt := map[];
      intToStrModuleId := [];
      new;
      KeysDiffer();
      var e := GetModuleId("exports");
      var m := GetModuleId("module");
      var r := GetModuleId("require");
    }

    static lemma KeysDiffer()
      ensures "exports" !in [] && [] + ["exports"] == ["exports"]
      ensures "module" !in ["exports"] && ["exports"] + ["module"] == ["exports", "module"]
      ensures "require" !in ["exports", "module"]
      ensures ["exports", "module"] + ["require"] == ["exports", "module", "require"]
    {
      assert |"exports"| == |"require"| && |"module"| == 6 && "exports"[0] != "require"[0];
    }

    /** An id once given to a string stays; a new string gets the next id. */
    method GetModuleId(s: string) returns (id: nat)
      requires Valid()
      modifies this
      ensures Valid() && id < |intToStrModuleId| && intToStrModuleId[id] == s
      ensures intToStrModuleId == if s in old(intToStrModuleId) then old(intToStrModuleId)
                                  else old(intToStrModuleId) + [s]
    {
      if s in strModuleIdToInt {
        return strModuleIdToInt[s];
      }
      id := |intToStrModuleId|;
      strModuleIdToInt := strModuleIdToInt[s := id];
      intToStrModuleId := intToStrModuleId + [s];
    }
  }

  /** The three special keys of a dependency list have these ids. */
  lemma SpecialKeys(intToStrModuleId: seq<string>)
    requires intToStrModuleId == ["exports", "module", "require"]
    ensures intToStrModuleId[LoaderState.Dep.Exports.Id()] == "exports"
    ensures intToStrModuleId[LoaderState.Dep.This.Id()] == "module"
    ensures intToStrModuleId[LoaderState.Dep.Require.Id()] == "require"
  {
  }
}
