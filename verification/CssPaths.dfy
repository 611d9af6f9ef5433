/** Joining paths and making them relative, as done to the URLs of a style sheet that moves to another file. */
module CssPaths {
  import opened Sequences
  import opened Slashes
  import opened ModuleIds

  // ---------------------------------------------------------------- pieces

  /** A path cut after each slash. */
  function Pieces(path: string): seq<string>
    decreases |path|
  {
    if path == "" then []
    else
      var j := SegmentEnd(path, 0);
      if j < |path| then [path[..j + 1]] + Pieces(path[j + 1..]) else [path]
  }

  /** Put a piece on the stack: `./` is ignored; `../` is ignored at the root, takes back any other piece that is
      not itself a `../`, and otherwise stays. */
  function PushPiece(pieces: seq<string>, piece: string): seq<string> {
    if piece == "./" then pieces
    else if piece == "../" && pieces != [] && Last(pieces) == "/" then pieces
    else if piece == "../" && pieces != [] && Last(pieces) != "" && Last(pieces) != "../" then Init(pieces)
    else pieces + [piece]
  }

  function PushPieces(pieces: seq<string>, more: seq<string>): seq<string>
    decreases |more|
  {
    if more == [] then pieces else PushPieces(PushPiece(pieces, more[0]), more[1..])
  }

  /** Where the path begins after a protocol prefix; 0 without the prefix. */
  function SlashAfterPrefix(haystack: string, prefix: string): (k: nat)
    ensures k <= |haystack|
  {
    if StartsWith(haystack, prefix) then
      var j := SegmentEnd(haystack, |prefix|);
      if j < |haystack| then j else |prefix|
    else 0
  }

  function PathStart(a: string): (k: nat)
    ensures k <= |a|
  {
    var k1 := SlashAfterPrefix(a, "//");
    if k1 != 0 then k1
    else
      var k2 := SlashAfterPrefix(a, "http://");
      if k2 != 0 then k2 else SlashAfterPrefix(a, "https://")
  }

  /** The conceptual `a + b`. */
  function Joined(a: string, b: string): string {
    var k := PathStart(a);
    var start := if b != "" && b[0] == '/' then [] else PushPieces([], Pieces(a[k..]));
    a[..k] + Flatten(PushPieces(start, Pieces(b)))
  }

  method PushPath(pieces: seq<string>, path: string) returns (pieces': seq<string>)
    ensures pieces' == PushPieces(pieces, Pieces(path))
  {
    pieces' := pieces;
    var rest := path;
    while |rest| > 0
      invariant PushPieces(pieces', Pieces(rest)) == PushPieces(pieces, Pieces(path))
      decreases |rest|
    {
      var slashIndex := SegmentEnd(rest, 0);
      var piece := if slashIndex < |rest| then rest[..slashIndex + 1] else rest;
      assert Pieces(rest)[0] == piece;
      rest := if slashIndex < |rest| then rest[slashIndex + 1..] else "";
      pieces' := PushPiece(pieces', piece);
    }
  }

  method JoinPieces(pieces: seq<string>) returns (s: string)
    ensures s == Flatten(pieces)
  {
    s := "";
    var i := 0;
    while i < |pieces|
      invariant i <= |pieces| && s == Flatten(pieces[..i])
    {
      assert Init(pieces[..i + 1]) == pieces[..i];
      s := s + pieces[i];
      i := i + 1;
    }
    assert pieces[..i] == pieces;
  }

  method JoinPaths(a: string, b: string) returns (r: string)
    ensures r == Joined(a, b)
  {
    var aPathStartIndex := PathStart(a);
    var pieces := PushPath([], a[aPathStartIndex..]);
    if |b| > 0 && b[0] == '/' {
      pieces := [];
    }
    pieces := PushPath(pieces, b);
    var tail := JoinPieces(pieces);
    r := a[..aPathStartIndex] + tail;
  }

  // ---------------------------------------------------------------- plain paths

  /** Without empty folder names: relative, and without protocol. */
  ghost predicate Plain(s: string) {
    "" !in Init(Split(s))
  }

  predicate IsFolder(s: string) {
    s == "" || Last(s) == '/'
  }

  function FolderPieces(folders: seq<string>): (ps: seq<string>)
    ensures |ps| == |folders|
  {
    seq(|folders|, i requires 0 <= i < |folders| => folders[i] + "/")
  }

  function FilePieces(file: string): seq<string> {
    if file == "" then [] else [file]
  }

  lemma {:induction false} PiecesAreSegments(s: string)
    ensures Pieces(s) == FolderPieces(Init(Split(s))) + FilePieces(Last(Split(s)))
    decreases |s|
  {
    var j := SegmentEnd(s, 0);
    assert s[0..] == s && s[0..j] == s[..j];
    if j < |s| {
      var x, rest := s[..j], s[j + 1..];
      assert Split(s) == [x] + Split(rest) by { SplitFirst(s, 0); }
      CutAfterSlash(s, x, rest);
      PiecesAreSegments(rest);
      PieceFirst(x, Split(rest), Split(s));
    } else {
      SplitNoSlash(s);
      OnePiece(s);
    }
  }

  lemma CutAfterSlash(s: string, x: string, rest: string)
    requires SegmentEnd(s, 0) < |s| && x == s[..SegmentEnd(s, 0)] && rest == s[SegmentEnd(s, 0) + 1..]
    ensures Pieces(s) == [x + "/"] + Pieces(rest)
  {
    TakeOneMore(s, SegmentEnd(s, 0), x);
  }

  lemma TakeOneMore(s: string, j: nat, x: string)
    requires j < |s| && s[j] == '/' && x == s[..j]
    ensures s[..j + 1] == x + "/"
  {
  }

  lemma OnePiece(s: string)
    ensures FolderPieces(Init([s])) + FilePieces(Last([s])) == FilePieces(s)
  {
    assert Init([s]) == [] && FolderPieces([]) == [];
    assert [] + FilePieces(s) == FilePieces(s);
  }

  lemma PieceFirst(x: string, rest: seq<string>, all: seq<string>)
    requires |rest| >= 1 && all == [x] + rest
    ensures [x + "/"] + (FolderPieces(Init(rest)) + FilePieces(Last(rest)))
         == FolderPieces(Init(all)) + FilePieces(Last(all))
  {
    assert Init(all) == [x] + Init(rest);
    FolderPiecesConcat([x], Init(rest));
  }

  lemma FolderPiecesConcat(a: seq<string>, b: seq<string>)
    ensures FolderPieces(a + b) == FolderPieces(a) + FolderPieces(b)
  {
  }

  lemma {:induction false} PushPiecesConcat(st: seq<string>, a: seq<string>, b: seq<string>)
    ensures PushPieces(st, a + b) == PushPieces(PushPieces(st, a), b)
    decreases |a|
  {
    if a == [] {
      assert a + b == b;
    } else {
      assert (a + b)[0] == a[0] && (a + b)[1..] == a[1..] + b;
      PushPiecesConcat(PushPiece(st, a[0]), a[1..], b);
    }
  }

  /** On folder names that are not empty, pushing pieces is evaluating segments. */
  lemma PushIsPush(stack: seq<string>, x: string)
    requires "" !in stack && "." !in stack && x != ""
    ensures PushPiece(FolderPieces(stack), x + "/") == FolderPieces(Push(stack, x))
  {
    PieceOf(x, ".");
    PieceOf(x, "..");
    if stack != [] {
      assert Last(stack) in stack && Last(FolderPieces(stack)) == Last(stack) + "/";
      PieceOf(Last(stack), "..");
      PieceOf(Last(stack), "");
      assert FolderPieces(Init(stack)) == Init(FolderPieces(stack));
    }
    assert FolderPieces(stack + [x]) == FolderPieces(stack) + [x + "/"];
  }

  lemma PieceOf(x: string, y: string)
    ensures x + "/" == y + "/" <==> x == y
  {
    if x + "/" == y + "/" {
      assert (x + "/")[..|x|] == x && (y + "/")[..|y|] == y;
      assert |x + "/"| == |y + "/"|;
    }
  }

  lemma {:induction false} PushFolders(stack: seq<string>, folders: seq<string>)
    requires "" !in stack && "." !in stack && "" !in folders
    ensures PushPieces(FolderPieces(stack), FolderPieces(folders)) == FolderPieces(Evaluate(stack, folders))
    decreases |folders|
  {
    if folders != [] {
      assert folders[0] in folders && forall x :: x in folders[1..] ==> x in folders;
      PushIsPush(stack, folders[0]);
      assert FolderPieces(folders)[1..] == FolderPieces(folders[1..]);
      PushFolders(Push(stack, folders[0]), folders[1..]);
    }
  }

  lemma {:induction false} ConcatFolders(folders: seq<string>, file: string)
    ensures Flatten(FolderPieces(folders)) + file == Join(folders + [file])
    decreases |folders|
  {
    if folders != [] {
      var rest := FolderPieces(folders[1..]);
      ConcatFolders(folders[1..], file);
      assert FolderPieces(folders) == [folders[0] + "/"] + rest;
      ConcatFront(folders[0] + "/", rest);
      assert (folders + [file])[1..] == folders[1..] + [file];
      assert folders[0] + "/" + Flatten(rest) + file == folders[0] + "/" + (Flatten(rest) + file);
    }
  }

  lemma ConcatFile(ps: seq<string>, file: string)
    ensures Flatten(ps + FilePieces(file)) == Flatten(ps) + file
  {
    if file == "" {
      assert ps + FilePieces(file) == ps;
    } else {
      assert Init(ps + [file]) == ps;
    }
  }

  lemma {:induction false} ConcatFront(p: string, ps: seq<string>)
    ensures Flatten([p] + ps) == p + Flatten(ps)
    decreases |ps|
  {
    if ps == [] {
      FlattenLast([], p);
      assert [] + [p] == [p] + ps && Flatten<char>([]) == [];
    } else {
      var init, last := Init(ps), Last(ps);
      assert ps == init + [last] && [p] + ps == [p] + init + [last];
      FlattenLast([p] + init, last);
      FlattenLast(init, last);
      ConcatFront(p, init);
      assert p + Flatten(init) + last == p + (Flatten(init) + last);
    }
  }

  lemma PrefixMakesEmpty(a: string, x: string)
    requires NoSlash(x) && StartsWith(a, x + "//")
    ensures !Plain(a)
  {
    var rest := a[|x| + 2..];
    assert a == x + "/" + ("/" + rest) by {
      assert a == a[..|x + "//"|] + rest;
      assert x + "//" + rest == x + "/" + ("/" + rest);
    }
    SplitConcat(x, "/" + rest);
    SplitNoSlash(x);
    assert "/" + rest == "" + "/" + rest;
    SplitConcat("", rest);
    assert Split(a)[1] == "" && |Split(a)| >= 3;
    assert Init(Split(a))[1] == "";
  }

  lemma PlainHasNoStart(a: string)
    requires Plain(a)
    ensures PathStart(a) == 0
  {
    assert "" + "//" == "//" && "http:" + "//" == "http://" && "https:" + "//" == "https://";
    if StartsWith(a, "//") {
      PrefixMakesEmpty(a, "");
    } else if StartsWith(a, "http://") {
      PrefixMakesEmpty(a, "http:");
    } else if StartsWith(a, "https://") {
      PrefixMakesEmpty(a, "https:");
    }
  }

  /** A plain folder and its pieces. */
  lemma FolderSplit(a: string)
    requires IsFolder(a)
    ensures Last(Split(a)) == "" && Pieces(a) == FolderPieces(Init(Split(a)))
  {
    PiecesAreSegments(a);
    if a != "" {
      EndsWithSlash(a);
      SplitTrailing(Init(a));
    }
    assert FolderPieces(Init(Split(a))) + [] == FolderPieces(Init(Split(a)));
  }

  lemma SplitAfterFolder(a: string, b: string)
    requires IsFolder(a)
    ensures Split(a + b) == Init(Split(a)) + Split(b)
  {
    if a == "" {
      assert a + b == b;
    } else {
      EndsWithSlash(a);
      SplitTrailing(Init(a));
      assert Init(Split(a)) == Split(Init(a));
      SplitConcat(Init(a), b);
    }
  }

  lemma SlashIsNotPlain(b: string)
    requires b != "" && b[0] == '/'
    ensures !Plain(b)
  {
    SplitAt(b, 0);
    assert b[..0] == "";
    assert Init(Split(b))[0] == "";
  }

  /** The folders and the file of a concatenation. */
  lemma ConcatParts(a: string, b: string)
    requires IsFolder(a)
    ensures Init(Split(a + b)) == Init(Split(a)) + Init(Split(b)) && Last(Split(a + b)) == Last(Split(b))
  {
    SplitAfterFolder(a, b);
    assert Init(Init(Split(a)) + Split(b)) == Init(Split(a)) + Init(Split(b));
  }

  /** On plain paths joining is normalising the concatenation. */
  lemma JoinedIsNormalized(a: string, b: string)
    requires IsFolder(a) && Plain(a) && Plain(b)
    ensures Joined(a, b) == Normalized(a + b)
  {
    var fa, fb, file := Init(Split(a)), Init(Split(b)), Last(Split(b));
    JoinedPieces(a, b);
    FolderSplit(a);
    PiecesAreSegments(b);
    PushAll(fa, fb, file);
    ConcatParts(a, b);
  }

  /** On plain paths nothing is cut off in front and the second part is not absolute. */
  lemma JoinedPieces(a: string, b: string)
    requires Plain(a) && Plain(b)
    ensures Joined(a, b) == Flatten(PushPieces(PushPieces([], Pieces(a)), Pieces(b)))
  {
    PlainHasNoStart(a);
    assert a[0..] == a && a[..0] == "";
    if b != "" && b[0] == '/' {
      SlashIsNotPlain(b);
    }
  }

  lemma PushAll(fa: seq<string>, fb: seq<string>, file: string)
    requires "" !in fa && "" !in fb && NoSlash(file)
    ensures Flatten(PushPieces(PushPieces([], FolderPieces(fa)), FolderPieces(fb) + FilePieces(file)))
         == Join(Evaluate([], fa + fb) + [file])
  {
    assert FolderPieces([]) == [];
    PushFolders([], fa);
    EvaluateNonempty([], fa);
    EvaluateReduces([], fa);
    JoinedTail(Evaluate([], fa), fb, file);
    EvaluateConcat([], fa, fb);
  }

  lemma ConcatPlain(a: string, b: string)
    requires IsFolder(a) && Plain(a) && Plain(b)
    ensures Plain(a + b) && Plain(Normalized(a + b))
  {
    ConcatParts(a, b);
    NormalizedPlain(a + b);
  }

  lemma NormalizedPlain(s: string)
    requires Plain(s)
    ensures Plain(Normalized(s)) && Reduced(Init(Split(Normalized(s))))
  {
    var st := Evaluate([], Init(Split(s)));
    EvaluateNonempty([], Init(Split(s)));
    NormalizedSplit(s);
    assert Init(st + [Last(Split(s))]) == st;
  }

  lemma JoinedTail(stack: seq<string>, folders: seq<string>, file: string)
    requires "" !in stack && "." !in stack && "" !in folders && NoSlash(file)
    ensures Flatten(PushPieces(FolderPieces(stack), FolderPieces(folders) + FilePieces(file)))
         == Join(Evaluate(stack, folders) + [file])
  {
    PushPiecesConcat(FolderPieces(stack), FolderPieces(folders), FilePieces(file));
    PushFolders(stack, folders);
    var st := FolderPieces(Evaluate(stack, folders));
    FileIsPushed(st, file);
    ConcatFile(st, file);
    ConcatFolders(Evaluate(stack, folders), file);
  }

  lemma FileIsPushed(st: seq<string>, file: string)
    requires NoSlash(file)
    ensures PushPieces(st, FilePieces(file)) == st + FilePieces(file)
  {
    if file != "" {
      assert "./"[1] == '/' && "../"[2] == '/';
      assert [file][1..] == [];
    }
  }

  // ---------------------------------------------------------------- relative paths

  /** Length up to and including the last slash. */
  function FolderLength(s: string): (k: nat)
    ensures k <= |s| && NoSlash(s[k..]) && (k > 0 ==> s[k - 1] == '/')
  {
    if s == "" then 0
    else if Last(s) == '/' then |s|
    else
      var k := FolderLength(Init(s));
      assert s[k..] == Init(s)[k..] + [Last(s)];
      k
  }

  /** `pathOf`: the folder of a file, with its slash. */
  function PathOf(filename: string): string {
    filename[..FolderLength(filename)]
  }

  lemma PathOfSplit(s: string)
    ensures IsFolder(PathOf(s)) && Init(Split(PathOf(s))) == Init(Split(s))
  {
    var k := FolderLength(s);
    var dir, file := s[..k], s[k..];
    assert s == dir + file;
    assert dir != "" ==> Last(dir) == s[k - 1];
    LastSegment(dir, file);
    assert Init(Init(Split(s)) + [""]) == Init(Split(s));
  }

  function CommonLength(a: string, b: string): (k: nat)
    ensures k <= |a| && k <= |b| && a[..k] == b[..k]
    ensures k < |a| && k < |b| ==> a[k] != b[k]
  {
    if a == "" || b == "" || a[0] != b[0] then 0
    else
      var k := 1 + CommonLength(a[1..], b[1..]);
      assert a[..k] == [a[0]] + a[1..][..k - 1] && b[..k] == [b[0]] + b[1..][..k - 1];
      k
  }

  method CommonPrefix(str1: string, str2: string) returns (r: string)
    ensures r == str1[..CommonLength(str1, str2)]
  {
    var i := 0;
    while i < |str1| && i < |str2| && str1[i] == str2[i]
      invariant i <= |str1| && i <= |str2| && str1[..i] == str2[..i]
    {
      i := i + 1;
    }
    CommonLengthUnique(str1, str2, i);
    return str1[..i];
  }

  lemma CommonLengthUnique(a: string, b: string, i: nat)
    requires i <= |a| && i <= |b| && a[..i] == b[..i] && (i < |a| && i < |b| ==> a[i] != b[i])
    ensures i == CommonLength(a, b)
  {
  }

  function CommonFolderPrefix(fromPath: string, toPath: string): string {
    PathOf(fromPath[..CommonLength(fromPath, toPath)])
  }

  lemma CommonLengthIsLongest(a: string, b: string, p: string)
    requires p <= a && p <= b
    ensures p <= a[..CommonLength(a, b)]
  {
    var k := CommonLength(a, b);
    assert forall i :: 0 <= i < |p| ==> a[i] == p[i] && b[i] == p[i];
  }

  /** The common folder prefix is the longest folder that both paths begin with. */
  lemma CommonFolderPrefixIsLongest(a: string, b: string, p: string)
    requires IsFolder(p)
    ensures p <= a && p <= b <==> p <= CommonFolderPrefix(a, b)
    ensures IsFolder(CommonFolderPrefix(a, b)) && CommonFolderPrefix(a, b) <= a && CommonFolderPrefix(a, b) <= b
  {
    PathOfSplit(a[..CommonLength(a, b)]);
    if p <= a && p <= b {
      CommonLengthIsLongest(a, b, p);
    }
  }

  function Times(n: nat): string {
    if n == 0 then "" else Times(n - 1) + "../"
  }

  predicate IsRooted(path: string) {
    StartsWith(path, "/") || StartsWith(path, "http://") || StartsWith(path, "https://")
  }

  function Relative(fromPath: string, toPath: string): string {
    if IsRooted(toPath) then toPath
    else
      var k := |CommonFolderPrefix(fromPath, toPath)|;
      Times(|Split(fromPath[k..])| - 1) + toPath[k..]
  }

  method RelativePath(fromPath: string, toPath: string) returns (r: string)
    ensures r == Relative(fromPath, toPath)
    ensures StartsWith(toPath, "/") || StartsWith(toPath, "http://") || StartsWith(toPath, "https://") ==> r == toPath
  {
    if StartsWith(toPath, "/") || StartsWith(toPath, "http://") || StartsWith(toPath, "https://") {
      return toPath;
    }
    var common := CommonPrefix(fromPath, toPath);
    var prefix := PathOf(common);
    var from, to := fromPath[|prefix|..], toPath[|prefix|..];
    var upCount := |Split(from)|;
    var result := "";
    var i := 1;
    while i < upCount
      invariant 1 <= i <= upCount && result == Times(i - 1)
    {
      result := result + "../";
      i := i + 1;
    }
    return result + to;
  }

  // ---------------------------------------------------------------- the inverse law

  /** Plain, and normalised already. */
  ghost predicate Normal(s: string) {
    Plain(s) && Reduced(Init(Split(s)))
  }

  lemma {:induction false} TimesSplit(n: nat)
    ensures IsFolder(Times(n)) && Init(Split(Times(n))) == Ups(n)
  {
    if n > 0 {
      TimesSplit(n - 1);
      assert Last(Times(n - 1) + "../") == '/';
      ConcatParts(Times(n - 1), "../");
      UpSplit();
      assert Ups(n - 1) + [".."] == Ups(n);
    }
  }

  lemma UpSplit()
    ensures Init(Split("../")) == [".."]
  {
    SplitTrailing("..");
    SplitNoSlash("..");
    assert ".." + "/" == "../";
    assert Init([".."] + [""]) == [".."];
  }

  /** Going up as often as there are names on top of the stack takes them all back. */
  lemma {:induction false} NamesThenUps(stack: seq<string>, names: seq<string>, k: nat)
    requires Names(names) && k == |names|
    ensures Evaluate(stack, names + Ups(k)) == stack
    decreases k
  {
    if k == 0 {
      assert names + Ups(0) == [];
    } else {
      var x, init := Last(names), Init(names);
      assert names + Ups(k) == init + ([x, ".."] + Ups(k - 1));
      EvaluateConcat(stack, init, [x, ".."] + Ups(k - 1));
      PushThenUp(Evaluate(stack, init), x, Ups(k - 1));
      EvaluateConcat(stack, init, Ups(k - 1));
      NamesThenUps(stack, init, k - 1);
    }
  }

  lemma NamesIfNoUps(xs: seq<string>)
    requires "" !in xs && "." !in xs && ".." !in xs
    ensures Names(xs)
  {
    forall i | 0 <= i < |xs| ensures IsName(xs[i]) {
      assert xs[i] in xs;
    }
  }

  lemma ReducedParts(a: seq<string>, b: seq<string>)
    requires Reduced(a + b)
    ensures Reduced(a) && Reduced(b) && "." !in b
  {
    forall i | 0 <= i < |a| ensures a[i] != "." { assert (a + b)[i] == a[i]; }
    forall i | 0 <= i < |a| - 1 && IsName(a[i]) ensures a[i + 1] != ".." {
      assert (a + b)[i] == a[i] && (a + b)[i + 1] == a[i + 1];
    }
    forall i | 0 <= i < |b| ensures b[i] != "." { assert (a + b)[|a| + i] == b[i]; }
    forall i | 0 <= i < |b| - 1 && IsName(b[i]) ensures b[i + 1] != ".." {
      assert (a + b)[|a| + i] == b[i] && (a + b)[|a| + i + 1] == b[i + 1];
    }
  }

  /** Down `ff` and up again, when `ff` has only names. */
  lemma ThereAndBack(fp: seq<string>, ff: seq<string>, tf: seq<string>)
    requires Names(ff) && Reduced(fp + tf)
    ensures Evaluate([], fp + ff + Ups(|ff|) + tf) == fp + tf
  {
    assert fp + ff + Ups(|ff|) + tf == fp + (ff + Ups(|ff|)) + tf;
    EvaluateConcat([], fp + (ff + Ups(|ff|)), tf);
    EvaluateConcat([], fp, ff + Ups(|ff|));
    NamesThenUps(Evaluate([], fp), ff, |ff|);
    EvaluateConcat([], fp, tf);
    ReducedEvaluates([], fp + tf);
    assert [] + (fp + tf) == fp + tf;
  }

  lemma {:induction false} UpsStay(stack: seq<string>, k: nat)
    requires stack == Ups(|stack|)
    ensures Evaluate(stack, Ups(k)) == Ups(|stack| + k)
    decreases k
  {
    if k > 0 {
      assert stack != [] ==> Last(stack) == "..";
      assert stack + [".."] == Ups(|stack| + 1);
      assert Ups(k)[1..] == Ups(k - 1);
      UpsStay(stack + [".."], k - 1);
    }
  }

  lemma UpsConcat(i: nat, j: nat)
    ensures Ups(i) + Ups(j) == Ups(i + j)
  {
  }

  /** Four evaluations in a row, by their intermediate stacks. */
  lemma {:induction false} EvaluateFour(a: seq<string>, b: seq<string>, c: seq<string>, d: seq<string>,
                     s1: seq<string>, s2: seq<string>, s3: seq<string>)
    requires Evaluate([], a) == s1 && Evaluate(s1, b) == s2 && Evaluate(s2, c) == s3
    ensures Evaluate([], a + b + c + d) == Evaluate(s3, d)
  {
    EvaluateConcat([], a + b + c, d);
    EvaluateConcat([], a + b, c);
    EvaluateConcat([], a, b);
  }

  lemma NamesBack(stack: seq<string>, names: seq<string>)
    requires Names(names)
    ensures Evaluate(Evaluate(stack, names), Ups(|names|)) == stack
  {
    EvaluateConcat(stack, names, Ups(|names|));
    NamesThenUps(stack, names, |names|);
  }

  lemma UpsTwice(stack: seq<string>, m: nat, n: nat)
    ensures Evaluate(stack, Ups(m + n)) == Evaluate(Evaluate(stack, Ups(m)), Ups(n))
  {
    UpsConcat(m, n);
    EvaluateConcat(stack, Ups(m), Ups(n));
  }

  lemma {:induction false} FurtherUp(base: seq<string>, i: nat, names: seq<string>)
    requires base == Ups(|base|)
    ensures Evaluate(base, Ups(i) + names) == Evaluate(Ups(|base| + i), names)
  {
    EvaluateConcat(base, Ups(i), names);
    UpsStay(base, i);
  }

  lemma BackAndFurther(base: seq<string>, i: nat, names: seq<string>, stack: seq<string>)
    requires base == Ups(|base|) && Names(names) && stack == Evaluate(base, names)
    ensures Evaluate(stack, Ups(|names| + i)) == Ups(|base| + i)
  {
    UpsTwice(stack, |names|, i);
    NamesBack(base, names);
    UpsStay(base, i);
  }

  /** Down a list that begins with `..` and up again leads elsewhere: twice as far up. */
  lemma UpsAndNames(fp: seq<string>, i: nat, names: seq<string>, ff: seq<string>, ups: seq<string>, tf: seq<string>,
                    base: seq<string>, top: seq<string>)
    requires fp == Ups(|fp|) && Names(names) && ff == Ups(i) + names && ups == Ups(|names| + i)
    requires base == Ups(|fp| + i) && top == Ups(|base| + i)
    ensures Evaluate([], fp + ff + ups + tf) == Evaluate(top, tf)
  {
    var st := Evaluate(base, names);
    UpsStay([], |fp|);
    FurtherUp(fp, i, names);
    BackAndFurther(base, i, names, st);
    EvaluateFour(fp, ff, ups, tf, fp, st, top);
  }

  lemma UpsBelow(k: nat, tf: seq<string>)
    requires Reduced(tf)
    ensures Evaluate(Ups(k), tf) == Ups(k) + tf
  {
    UpsThenReduced(k, tf);
    ReducedEvaluates(Ups(k), tf);
  }

  lemma UpsThenReduced(k: nat, tf: seq<string>)
    requires Reduced(tf)
    ensures Reduced(Ups(k) + tf)
  {
    var xs := Ups(k) + tf;
    forall i | 0 <= i < |xs| - 1 && IsName(xs[i]) ensures xs[i + 1] != ".." {
      assert xs[i] == tf[i - k] && xs[i + 1] == tf[i + 1 - k];
    }
  }

  /** A reduced list in whose second part there is a `..`. */
  lemma UpsReachInto(fp: seq<string>, ff: seq<string>) returns (i: nat)
    requires Reduced(fp + ff) && "" !in fp + ff && ".." in ff
    ensures fp == Ups(|fp|) && 0 < i <= |ff| && ff[..i] == Ups(i) && Names(ff[i..])
  {
    var k := ReducedShape(fp + ff);
    NamesFrom(fp + ff, k);
    var q :| 0 <= q < |ff| && ff[q] == "..";
    assert (fp + ff)[|fp| + q] == "..";
    i := k - |fp|;
    assert fp == (fp + ff)[..k][..|fp|];
    assert ff[..i] == (fp + ff)[..k][|fp|..];
    assert ff[i..] == (fp + ff)[k..];
  }

  lemma NamesFrom(xs: seq<string>, k: nat)
    requires k <= |xs| && Names(xs[k..])
    ensures forall i :: k <= i < |xs| ==> IsName(xs[i])
  {
    forall i | k <= i < |xs| ensures IsName(xs[i]) {
      assert xs[k..][i - k] == xs[i];
    }
  }

  // ---------------------------------------------------------------- results

  /** The folder segments and the last segment of a path. */
  ghost predicate Is(s: string, folders: seq<string>, file: string) {
    Init(Split(s)) == folders && Last(Split(s)) == file
  }

  lemma ConcatIs(a: string, fa: seq<string>, b: string, fb: seq<string>, file: string)
    requires Is(a, fa, "") && IsFolder(a) && Is(b, fb, file)
    ensures Is(a + b, fa + fb, file)
  {
    ConcatParts(a, b);
  }

  lemma JoinedIs(a: string, fa: seq<string>, b: string, fb: seq<string>, file: string)
    requires Is(a, fa, "") && IsFolder(a) && Is(b, fb, file) && "" !in fa && "" !in fb
    ensures Joined(a, b) == Join(Evaluate([], fa + fb) + [file])
  {
    JoinedIsNormalized(a, b);
    ConcatIs(a, fa, b, fb, file);
  }

  lemma RelativeText(from: string, to: string, p: string, f: string, t: string)
    requires from == p + f && to == p + t && p == CommonFolderPrefix(from, to) && Plain(to)
    ensures Relative(from, to) == Times(|Split(f)| - 1) + t
  {
    PlainStarts(to);
    AfterPrefix(from, p, f);
    AfterPrefix(to, p, t);
    RelativeAt(from, to, |p|, f, t);
  }

  lemma RelativeAt(from: string, to: string, k: nat, f: string, t: string)
    requires !IsRooted(to) && k == |CommonFolderPrefix(from, to)| <= |from| && k <= |to|
    requires from[k..] == f && to[k..] == t
    ensures Relative(from, to) == Times(|Split(f)| - 1) + t
  {
  }

  lemma AfterPrefix(s: string, p: string, rest: string)
    requires s == p + rest
    ensures s[|p|..] == rest
  {
  }

  /** The relative path goes up out of the folders of `f` and then down to the target. */
  lemma {:induction false} RelativeIs(from: string, to: string, p: string,
                                      f: string, t: string, tf: seq<string>, file: string)
    requires from == p + f && to == p + t && p == CommonFolderPrefix(from, to) && Plain(to)
    requires Is(t, tf, file)
    ensures Is(Relative(from, to), Ups(|Split(f)| - 1) + tf, file)
  {
    RelativeText(from, to, p, f, t);
    var n: nat := |Split(f)| - 1;
    TimesIs(n);
    ConcatIs(Times(n), Ups(n), t, tf, file);
  }

  lemma {:induction false} FolderIs(from: string, folders: seq<string>)
    requires Init(Split(from)) == folders
    ensures IsFolder(PathOf(from)) && Is(PathOf(from), folders, "")
  {
    PathOfSplit(from);
    FolderSplit(PathOf(from));
  }

  lemma TimesIs(n: nat)
    ensures IsFolder(Times(n)) && Is(Times(n), Ups(n), "")
  {
    TimesSplit(n);
    FolderSplit(Times(n));
  }

  /** A plain path has neither a protocol nor a slash in front. */
  lemma PlainStarts(s: string)
    requires Plain(s)
    ensures !IsRooted(s)
  {
    PlainHasNoStart(s);
    if s != "" && s[0] == '/' {
      SlashIsNotPlain(s);
    }
  }

  /** Joining the folder of a file and the relative path to a target gives the target back exactly when the file
      does not go up beyond the folder prefix that it shares with the target. */
  lemma RelativeIsInverse(from: string, to: string)
    requires Normal(from) && Normal(to)
    ensures Joined(PathOf(from), Relative(from, to)) == to
       <==> ".." !in Init(Split(from[|CommonFolderPrefix(from, to)|..]))
  {
    var p, f, t := CommonParts(from, to);
    ConcatParts(p, f);
    ConcatParts(p, t);
    RelativeIsInverseOf(from, to, p, f, t, Init(Split(p)), Init(Split(f)), Init(Split(t)), Last(Split(t)));
  }

  lemma CommonParts(from: string, to: string) returns (p: string, f: string, t: string)
    ensures p == CommonFolderPrefix(from, to) && IsFolder(p) && f == from[|p|..]
    ensures from == p + f && to == p + t
  {
    p := CommonFolderPrefix(from, to);
    CommonFolderPrefixIsLongest(from, to, "");
    f, t := from[|p|..], to[|p|..];
  }

  lemma RelativeIsInverseOf(from: string, to: string, p: string, f: string, t: string,
                            fp: seq<string>, ff: seq<string>, tf: seq<string>, file: string)
    requires from == p + f && to == p + t && p == CommonFolderPrefix(from, to) && Plain(to)
    requires Init(Split(f)) == ff && Is(t, tf, file) && Init(Split(from)) == fp + ff && Is(to, fp + tf, file)
    requires Reduced(fp + ff) && Reduced(fp + tf) && "" !in fp + ff && "" !in fp + tf
    ensures Joined(PathOf(from), Relative(from, to)) == to <==> ".." !in ff
  {
    RelativeIs(from, to, p, f, t, tf, file);
    FolderIs(from, fp + ff);
    PartsNonempty(fp, ff, tf);
    RoundTripSegments(fp, ff, Ups(|ff|), tf, file, to, Relative(from, to), PathOf(from));
  }

  lemma PartsNonempty(fp: seq<string>, ff: seq<string>, tf: seq<string>)
    requires "" !in fp + ff && "" !in fp + tf
    ensures "" !in fp && "" !in ff && "" !in Ups(|ff|) + tf
  {
    assert forall x :: x in fp ==> x in fp + ff;
    assert forall x :: x in ff ==> x in fp + ff;
    assert forall x :: x in tf ==> x in fp + tf;
  }

  /** The same on segments. */
  lemma RoundTripSegments(fp: seq<string>, ff: seq<string>, ups: seq<string>, tf: seq<string>, file: string,
                          to: string, relative: string, dir: string)
    requires Reduced(fp + ff) && Reduced(fp + tf) && "" !in fp + ff && "" !in ups + tf && ups == Ups(|ff|)
    requires Is(to, fp + tf, file) && Is(relative, ups + tf, file) && Is(dir, fp + ff, "") && IsFolder(dir)
    ensures Joined(dir, relative) == to <==> ".." !in ff
  {
    JoinedIs(dir, fp + ff, relative, ups + tf, file);
    ConcatRegroups(fp + ff, ups, tf);
    RoundTripText(fp, ff, ups, tf, file, to, Evaluate([], fp + ff + ups + tf));
  }

  lemma ConcatRegroups(a: seq<string>, b: seq<string>, c: seq<string>)
    ensures a + (b + c) == a + b + c
  {
  }

  lemma RoundTripText(fp: seq<string>, ff: seq<string>, ups: seq<string>, tf: seq<string>, file: string,
                      to: string, st: seq<string>)
    requires Reduced(fp + ff) && Reduced(fp + tf) && "" !in fp + ff && ups == Ups(|ff|)
    requires st == Evaluate([], fp + ff + ups + tf) && Is(to, fp + tf, file)
    ensures Join(st + [file]) == to <==> ".." !in ff
  {
    if ".." !in ff {
      NoUpsRoundTrip(fp, ff, ups, tf);
      Rejoin(to, fp + tf, file);
    } else {
      UpsNoRoundTrip(fp, ff, ups, tf);
      DifferentJoin(st, fp + tf, file, to);
    }
  }

  lemma NoUpsRoundTrip(fp: seq<string>, ff: seq<string>, ups: seq<string>, tf: seq<string>)
    requires Reduced(fp + ff) && Reduced(fp + tf) && "" !in fp + ff && ups == Ups(|ff|) && ".." !in ff
    ensures Evaluate([], fp + ff + ups + tf) == fp + tf
  {
    ReducedParts(fp, ff);
    assert forall x :: x in ff ==> x in fp + ff;
    NamesIfNoUps(ff);
    ThereAndBack(fp, ff, tf);
  }

  lemma UpsNoRoundTrip(fp: seq<string>, ff: seq<string>, ups: seq<string>, tf: seq<string>)
    requires Reduced(fp + ff) && Reduced(fp + tf) && "" !in fp + ff && ups == Ups(|ff|) && ".." in ff
    ensures |Evaluate([], fp + ff + ups + tf)| > |fp + tf|
  {
    ReducedParts(fp, tf);
    var i := UpsReachInto(fp, ff);
    var names := ff[i..];
    assert ff == Ups(i) + names && |ff| == |names| + i;
    UpsGoBeyond(fp, i, names, ff, ups, tf);
  }

  lemma UpsGoBeyond(fp: seq<string>, i: nat, names: seq<string>, ff: seq<string>, ups: seq<string>, tf: seq<string>)
    requires fp == Ups(|fp|) && Names(names) && ff == Ups(i) + names && ups == Ups(|names| + i) && Reduced(tf) && i > 0
    ensures |Evaluate([], fp + ff + ups + tf)| > |fp + tf|
  {
    var base := Ups(|fp| + i);
    UpsAndNames(fp, i, names, ff, ups, tf, base, Ups(|base| + i));
    UpsBelow(|base| + i, tf);
  }

  lemma {:induction false} DifferentJoin(xs: seq<string>, folders: seq<string>, file: string, to: string)
    requires Is(to, folders, file) && |xs| > |folders|
    ensures Join(xs + [file]) != to
  {
    assert Split(to) == folders + [file];
    if Join(xs + [file]) == to {
      JoinLength(xs + [file], to);
    }
  }

  /** Splitting a joined list gives at least as many segments. */
  lemma {:induction false} JoinLength(xs: seq<string>, s: string)
    requires |xs| >= 1 && s == Join(xs)
    ensures |Split(s)| >= |xs|
    decreases |xs|
  {
    if |xs| > 1 {
      var rest := Join(xs[1..]);
      JoinLength(xs[1..], rest);
      SplitConcat(xs[0], rest);
    }
  }

  /** `rewriteUrls` for one URL: from the file where it stands to another file. */
  function Rewritten(originalFile: string, newFile: string, url: string): string {
    Relative(newFile, Joined(PathOf(originalFile), url))
  }

  method RewriteUrl(originalFile: string, newFile: string, url: string) returns (r: string)
    ensures r == Rewritten(originalFile, newFile, url)
  {
    var absoluteUrl := JoinPaths(PathOf(originalFile), url);
    r := RelativePath(newFile, absoluteUrl);
  }

  /** A rewritten URL means from the new file what the URL means from the old one, exactly when the new file does not
      go up beyond the folder that it shares with the target. */
  lemma RewrittenMeansSame(originalFile: string, newFile: string, url: string)
    requires Plain(originalFile) && Plain(url) && Normal(newFile)
    ensures Joined(PathOf(newFile), Rewritten(originalFile, newFile, url)) == Joined(PathOf(originalFile), url)
       <==> var target := Joined(PathOf(originalFile), url);
            ".." !in Init(Split(newFile[|CommonFolderPrefix(newFile, target)|..]))
  {
    var dir := PathOf(originalFile);
    PathOfSplit(originalFile);
    JoinedIsNormalized(dir, url);
    ConcatPlain(dir, url);
    NormalizedPlain(dir + url);
    RelativeIsInverse(newFile, Joined(dir, url));
  }

  /** Rewriting by way of an intermediate file is rewriting directly, unless the intermediate file goes up beyond the
      folder that it shares with the target. */
  lemma RewriteViaIntermediate(originalFile: string, middleFile: string, newFile: string, url: string)
    requires Plain(originalFile) && Plain(url) && Normal(middleFile)
    requires var target := Joined(PathOf(originalFile), url);
             ".." !in Init(Split(middleFile[|CommonFolderPrefix(middleFile, target)|..]))
    ensures Rewritten(middleFile, newFile, Rewritten(originalFile, middleFile, url))
         == Rewritten(originalFile, newFile, url)
  {
    var dir := PathOf(originalFile);
    PathOfSplit(originalFile);
    JoinedIsNormalized(dir, url);
    ConcatPlain(dir, url);
    NormalizedPlain(dir + url);
    RelativeIsInverse(middleFile, Joined(dir, url));
  }

  /** Joining once more changes nothing. */
  lemma JoinIsIdempotent(a: string, b: string)
    requires IsFolder(a) && Plain(a) && Plain(b)
    ensures Joined("", Joined(a, b)) == Joined(a, b) && Normal(Joined(a, b))
  {
    JoinedIsNormalized(a, b);
    ConcatPlain(a, b);
    NormalizedPlain(a + b);
    assert "" + Joined(a, b) == Joined(a, b) && Split("") == [""] && Init([""]) == [];
    JoinedIsNormalized("", Joined(a, b));
    NormalizedIdempotent(a + b);
  }

  /** The folders of a joined path are a run of `..` and then names. */
  lemma {:induction false} JoinedShape(a: string, b: string) returns (k: nat)
    requires IsFolder(a) && Plain(a) && Plain(b)
    ensures var folders := Init(Split(Joined(a, b)));
            k <= |folders| && folders[..k] == Ups(k) && Names(folders[k..])
    ensures Last(Split(Joined(a, b))) == Last(Split(b))
  {
    JoinIsIdempotent(a, b);
    k := ReducedShape(Init(Split(Joined(a, b))));
    JoinedSegments(a, Init(Split(a)), b, Init(Split(b)), Last(Split(b)));
  }

  /** What a joined path is made of. */
  lemma JoinedSegments(a: string, fa: seq<string>, b: string, fb: seq<string>, file: string)
    requires IsFolder(a) && Init(Split(a)) == fa && Is(b, fb, file) && "" !in fa && "" !in fb
    ensures Is(Joined(a, b), Evaluate([], fa + fb), file) && "" !in Evaluate([], fa + fb)
  {
    JoinedIsNormalized(a, b);
    ConcatParts(a, b);
    NormalizedSplit(a + b);
    EvaluateNonempty([], fa + fb);
    assert Init(Evaluate([], fa + fb) + [file]) == Evaluate([], fa + fb);
  }

  lemma FolderIfLastIsEmpty(s: string)
    requires Last(Split(s)) == ""
    ensures IsFolder(s)
  {
    var k := FolderLength(s);
    assert s == s[..k] + s[k..];
    LastSegment(s[..k], s[k..]);
  }

  /** Joining is associative on plain folders, with any plain path at the end. */
  lemma JoinIsAssociative(a: string, b: string, c: string)
    requires IsFolder(a) && IsFolder(b) && Plain(a) && Plain(b) && Plain(c)
    ensures Joined(Joined(a, b), c) == Joined(a, Joined(b, c))
  {
    var fa, fb, fc, file := Init(Split(a)), Init(Split(b)), Init(Split(c)), Last(Split(c));
    FolderSplit(b);
    JoinLeft(a, fa, b, fb, c, fc, file);
    JoinRight(a, fa, b, fb, c, fc, file);
  }

  lemma JoinLeft(a: string, fa: seq<string>, b: string, fb: seq<string>, c: string, fc: seq<string>, file: string)
    requires IsFolder(a) && Init(Split(a)) == fa && Is(b, fb, "") && Is(c, fc, file)
    requires "" !in fa && "" !in fb && "" !in fc
    ensures Joined(Joined(a, b), c) == Join(Evaluate([], fa + fb + fc) + [file])
  {
    JoinedSegments(a, fa, b, fb, "");
    FolderIfLastIsEmpty(Joined(a, b));
    JoinedIs(Joined(a, b), Evaluate([], fa + fb), c, fc, file);
    EvaluateLeft(fa + fb, fc);
  }

  lemma EvaluateLeft(fab: seq<string>, fc: seq<string>)
    ensures Evaluate([], Evaluate([], fab) + fc) == Evaluate([], fab + fc)
  {
    EvaluateTwice([], [], fab, fc);
    assert [] + fab == fab && [] + Evaluate([], fab) == Evaluate([], fab);
  }

  lemma {:induction false} JoinRight(a: string, fa: seq<string>, b: string, fb: seq<string>,
                                     c: string, fc: seq<string>, file: string)
    requires IsFolder(a) && Init(Split(a)) == fa && IsFolder(b) && Init(Split(b)) == fb && Is(c, fc, file)
    requires "" !in fa && "" !in fb && "" !in fc
    ensures Joined(a, Joined(b, c)) == Join(Evaluate([], fa + fb + fc) + [file])
  {
    JoinedSegments(b, fb, c, fc, file);
    FolderSplit(a);
    JoinedIs(a, fa, Joined(b, c), Evaluate([], fb + fc), file);
    EvaluateRight(fa, fb, fc);
  }

  lemma {:induction false} EvaluateRight(fa: seq<string>, fb: seq<string>, fc: seq<string>)
    ensures Evaluate([], fa + Evaluate([], fb + fc)) == Evaluate([], fa + fb + fc)
  {
    EvaluateTwice([], fa, fb + fc, []);
    assert fa + (fb + fc) + [] == fa + fb + fc;
    assert fa + Evaluate([], fb + fc) + [] == fa + Evaluate([], fb + fc);
  }

  /** Evaluating a middle part first changes nothing. */
  lemma EvaluateTwice(stack: seq<string>, a: seq<string>, b: seq<string>, c: seq<string>)
    ensures Evaluate(stack, a + Evaluate([], b) + c) == Evaluate(stack, a + b + c)
  {
    EvaluateConcat(stack, a + Evaluate([], b), c);
    EvaluateConcat(stack, a + b, c);
    EvaluateConcat(stack, a, Evaluate([], b));
    EvaluateConcat(stack, a, b);
    EvaluateEvaluated(Evaluate(stack, a), [], b);
    assert [] + b == b;
  }

  // ---------------------------------------------------------------- protocols and absolute paths

  lemma PrefixOf(a: string, proto: string, tail: string)
    requires a == proto + tail
    ensures StartsWith(a, proto) && a[|proto|..] == tail
  {
  }

  /** The first slash behind the protocol ends the host. */
  lemma HostEnds(a: string, proto: string, host: string, rest: string)
    requires a == proto + host + rest && NoSlash(host) && rest != "" && rest[0] == '/' && proto != ""
    ensures SlashAfterPrefix(a, proto) == |proto| + |host|
  {
    assert a == proto + (host + rest);
    PrefixOf(a, proto, host + rest);
    var k := |proto| + |host|;
    assert a[|proto|..k] == host && a[k] == '/';
    SegmentEndIs(a, |proto|, k);
  }

  lemma {:induction false} SegmentEndIs(r: string, k: nat, j: nat)
    requires k <= j < |r| && NoSlash(r[k..j]) && r[j] == '/'
    ensures SegmentEnd(r, k) == j
    decreases j - k
  {
    if k < j {
      assert r[k] == r[k..j][0] && r[k + 1..j] == r[k..j][1..];
      SegmentEndIs(r, k + 1, j);
    }
  }

  lemma OtherProtocol(a: string, proto: string, other: string, i: nat)
    requires StartsWith(a, proto) && i < |proto| && i < |other| && proto[i] != other[i]
    ensures !StartsWith(a, other)
  {
    CharOf(a, proto, i);
    CharOf(a, other, i);
  }

  lemma CharOf(a: string, prefix: string, i: nat)
    requires i < |prefix|
    ensures StartsWith(a, prefix) ==> a[i] == prefix[i]
  {
    if StartsWith(a, prefix) {
      assert a[..|prefix|][i] == a[i];
    }
  }

  lemma ProtocolStart(a: string, proto: string, host: string, rest: string)
    requires proto == "//" || proto == "http://" || proto == "https://"
    requires a == proto + host + rest && NoSlash(host) && rest != "" && rest[0] == '/'
    ensures PathStart(a) == |proto| + |host|
  {
    HostEnds(a, proto, host, rest);
    assert a == proto + (host + rest);
    PrefixOf(a, proto, host + rest);
    if proto != "//" {
      OtherProtocol(a, proto, "//", 0);
      if proto == "https://" {
        OtherProtocol(a, proto, "http://", 4);
      }
    }
  }

  /** Protocol and host are kept, and the paths behind them are joined. */
  lemma ProtocolIsKept(a: string, proto: string, host: string, rest: string, b: string)
    requires proto == "//" || proto == "http://" || proto == "https://"
    requires a == proto + host + rest && NoSlash(host) && rest != "" && rest[0] == '/' && !StartsWith(rest, "//")
    ensures Joined(a, b) == proto + host + Joined(rest, b)
  {
    ProtocolStart(a, proto, host, rest);
    var k := |proto| + |host|;
    assert a[..k] == proto + host && a[k..] == rest;
    NoProtocol(rest);
    assert rest[0..] == rest && rest[..0] == "";
    var tail := Joined(rest, b);
    assert "" + tail == tail;
  }

  lemma NoProtocol(rest: string)
    requires rest != "" && rest[0] == '/' && !StartsWith(rest, "//")
    ensures PathStart(rest) == 0
  {
    assert StartsWith(rest, "/") by { assert rest[..1][0] == '/'; }
    OtherProtocol(rest, "/", "http://", 0);
    OtherProtocol(rest, "/", "https://", 0);
  }

  /** Behind a root one goes down into folders and up again, but not above the root. */
  lemma PushIsGo(dir: seq<string>, x: string)
    requires "" !in dir && "." !in dir && ".." !in dir && x != ""
    ensures PushPiece(["/"] + FolderPieces(dir), x + "/") == ["/"] + FolderPieces(Go(dir, x))
    ensures "" !in Go(dir, x) && "." !in Go(dir, x) && ".." !in Go(dir, x)
  {
    PieceOf(x, ".");
    PieceOf(x, "..");
    PieceOf(x, "");
    assert "" + "/" == "/";
    if x == ".." {
      if dir != [] {
        TopFolder(dir);
      }
    } else if x != "." {
      assert FolderPieces(dir + [x]) == FolderPieces(dir) + [x + "/"];
      assert ["/"] + FolderPieces(dir) + [x + "/"] == ["/"] + (FolderPieces(dir) + [x + "/"]);
    }
  }

  lemma TopFolder(dir: seq<string>)
    requires dir != [] && "" !in dir && ".." !in dir
    ensures var st := ["/"] + FolderPieces(dir);
            Last(st) != "/" && Last(st) != "" && Last(st) != "../" && Init(st) == ["/"] + FolderPieces(Init(dir))
    ensures forall x :: x in Init(dir) ==> x in dir
  {
    assert Last(dir) in dir;
    PieceOf(Last(dir), "..");
    PieceOf(Last(dir), "");
    assert FolderPieces(Init(dir)) == Init(FolderPieces(dir));
  }

  lemma {:induction false} RootedFolders(folders: seq<string>)
    requires "" !in folders
    ensures var dir := GoAll([], folders);
            && "" !in dir && "." !in dir && ".." !in dir
            && PushPieces(["/"], FolderPieces(folders)) == ["/"] + FolderPieces(dir)
    decreases |folders|
  {
    if folders == [] {
      assert FolderPieces([]) == [] && ["/"] + [] == ["/"];
    } else {
      var init, x := Init(folders), Last(folders);
      assert x in folders && forall y :: y in init ==> y in folders;
      RootedFolders(init);
      PushIsGo(GoAll([], init), x);
      assert FolderPieces(folders) == FolderPieces(init) + [x + "/"];
      PushPiecesConcat(["/"], FolderPieces(init), [x + "/"]);
      assert [x + "/"][1..] == [];
    }
  }

  /** An absolute second part replaces the path of the first, but not its protocol and host; it is followed from the
      root, above which there is nothing. */
  lemma AbsoluteReplaces(a: string, s: string)
    requires Plain(s)
    ensures Joined(a, "/" + s)
         == a[..PathStart(a)] + "/" + Join(GoAll([], Init(Split(s))) + [Last(Split(s))])
  {
    var folders, file := Init(Split(s)), Last(Split(s));
    var dir := GoAll([], folders);
    RootedPieces(s);
    RootedFolders(folders);
    FileIsPushed(["/"] + FolderPieces(dir), file);
    PushPiecesConcat(["/"], FolderPieces(folders), FilePieces(file));
    RootedText(dir, file);
    var tail := Join(dir + [file]);
    assert a[..PathStart(a)] + ("/" + tail) == a[..PathStart(a)] + "/" + tail;
  }

  lemma RootedPieces(s: string)
    ensures PushPieces([], Pieces("/" + s))
         == PushPieces(["/"], FolderPieces(Init(Split(s))) + FilePieces(Last(Split(s))))
  {
    assert ("/" + s)[..1] == "/" && ("/" + s)[1..] == s;
    PiecesAreSegments(s);
    assert Pieces("/" + s) == ["/"] + Pieces(s);
    assert (["/"] + Pieces(s))[1..] == Pieces(s);
    assert PushPiece([], "/") == ["/"];
  }

  lemma RootedText(dir: seq<string>, file: string)
    ensures Flatten(["/"] + FolderPieces(dir) + FilePieces(file)) == "/" + Join(dir + [file])
  {
    ConcatFile(["/"] + FolderPieces(dir), file);
    ConcatFront("/", FolderPieces(dir));
    ConcatFolders(dir, file);
    assert "/" + Flatten(FolderPieces(dir)) + file == "/" + (Flatten(FolderPieces(dir)) + file);
  }

  lemma {:induction false} SegmentEndAll(r: string, k: nat)
    requires k <= |r| && NoSlash(r[k..])
    ensures SegmentEnd(r, k) == |r|
    decreases |r| - k
  {
    if k < |r| {
      assert r[k] == r[k..][0] && r[k + 1..] == r[k..][1..];
      SegmentEndAll(r, k + 1);
    }
  }

  lemma HostAloneStart(a: string, proto: string, host: string)
    requires proto == "//" || proto == "http://" || proto == "https://"
    requires a == proto + host && NoSlash(host)
    ensures PathStart(a) == |proto|
  {
    PrefixOf(a, proto, host);
    SegmentEndAll(a, |proto|);
    if proto != "//" {
      OtherProtocol(a, proto, "//", 0);
      if proto == "https://" {
        OtherProtocol(a, proto, "http://", 4);
      }
    }
  }

  /** A host without a slash behind it is taken for the path, so that an absolute second part replaces the host too. */
  lemma HostAloneIsLost(proto: string, host: string, s: string)
    requires proto == "//" || proto == "http://" || proto == "https://"
    requires NoSlash(host) && Plain(s)
    ensures Joined(proto + host, "/" + s) == proto + "/" + Join(GoAll([], Init(Split(s))) + [Last(Split(s))])
  {
    HostAloneStart(proto + host, proto, host);
    AbsoluteReplaces(proto + host, s);
    assert (proto + host)[..|proto|] == proto;
  }
}
