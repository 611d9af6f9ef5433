/** Strings as sequences of segments between slashes. */
module Slashes {
  import opened Sequences

  predicate NoSlash(x: string) {
    '/' !in x
  }

  predicate Segments(xs: seq<string>) {
    |xs| >= 1 && forall i :: 0 <= i < |xs| ==> NoSlash(xs[i])
  }

  /** `s.split('/')`. */
  function Split(s: string): (xs: seq<string>)
    ensures Segments(xs)
  {
    if s == "" then [""]
    else
      var rest := Split(s[1..]);
      if s[0] == '/' then [""] + rest else [[s[0]] + rest[0]] + rest[1..]
  }

  function Join(xs: seq<string>): string
    requires |xs| >= 1
  {
    if |xs| == 1 then xs[0] else xs[0] + "/" + Join(xs[1..])
  }

  lemma {:induction false} JoinSplit(s: string)
    ensures Join(Split(s)) == s
  {
    if s != "" {
      JoinSplit(s[1..]);
      var rest := Split(s[1..]);
      if s[0] == '/' {
        assert ([""] + rest)[1..] == rest;
      } else if |rest| > 1 {
        assert ([[s[0]] + rest[0]] + rest[1..])[1..] == rest[1..];
        assert [s[0]] + rest[0] + "/" + Join(rest[1..]) == [s[0]] + (rest[0] + "/" + Join(rest[1..]));
      }
    }
  }

  lemma {:induction false} SplitNoSlash(x: string)
    requires NoSlash(x)
    ensures Split(x) == [x]
  {
    if x != "" {
      assert x[0] in x && forall c :: c in x[1..] ==> c in x;
      SplitNoSlash(x[1..]);
      assert [x[0]] + x[1..] == x;
    }
  }

  lemma {:induction false} SplitConcat(a: string, b: string)
    ensures Split(a + "/" + b) == Split(a) + Split(b)
  {
    if a == "" {
      assert (a + "/" + b)[0] == '/' && (a + "/" + b)[1..] == b;
    } else {
      SplitConcat(a[1..], b);
      assert (a + "/" + b)[1..] == a[1..] + "/" + b;
      assert (a + "/" + b)[0] == a[0];
    }
  }

  lemma SplitTrailing(a: string)
    ensures Split(a + "/") == Split(a) + [""]
  {
    SplitConcat(a, "");
    assert a + "/" + "" == a + "/";
  }

  /** A string is its folder segments and its last segment. */
  lemma Rejoin(s: string, folders: seq<string>, last: string)
    requires Init(Split(s)) == folders && Last(Split(s)) == last
    ensures Join(folders + [last]) == s
  {
    assert folders + [last] == Split(s);
    JoinSplit(s);
  }

  lemma {:induction false} SplitJoin(xs: seq<string>)
    requires Segments(xs)
    ensures Split(Join(xs)) == xs
  {
    SplitNoSlash(xs[0]);
    if |xs| > 1 {
      SplitJoin(xs[1..]);
      SplitConcat(xs[0], Join(xs[1..]));
    }
  }

  lemma JoinConcat(xs: seq<string>, ys: seq<string>)
    requires Segments(xs) && Segments(ys)
    ensures Join(xs + ys) == Join(xs) + "/" + Join(ys)
  {
    SplitJoin(xs);
    SplitJoin(ys);
    SplitConcat(Join(xs), Join(ys));
    JoinSplit(Join(xs) + "/" + Join(ys));
  }

  // ---------------------------------------------------------------- positions of slashes

  predicate StartsWith(haystack: string, needle: string) {
    |haystack| >= |needle| && haystack[..|needle|] == needle
  }

  /** Where the segment that starts at `k` ends. */
  function SegmentEnd(r: string, k: nat): (j: nat)
    requires k <= |r|
    ensures k <= j <= |r| && NoSlash(r[k..j]) && (j < |r| ==> r[j] == '/')
    decreases |r| - k
  {
    if k == |r| || r[k] == '/' then k
    else
      var j := SegmentEnd(r, k + 1);
      assert r[k..j] == [r[k]] + r[k + 1..j];
      j
  }

  /** A slash of `r` separates segments. */
  lemma {:induction false} SplitAt(r: string, i: nat)
    requires i < |r| && r[i] == '/'
    ensures Split(r) == Split(r[..i]) + Split(r[i + 1..])
  {
    assert r == r[..i] + "/" + r[i + 1..];
    SplitConcat(r[..i], r[i + 1..]);
  }

  /** A segment starts at `k`: it is followed by the rest, if any. */
  lemma SplitFirst(r: string, k: nat)
    requires k <= |r|
    ensures var j := SegmentEnd(r, k);
            Split(r[k..]) == [r[k..j]] + if j < |r| then Split(r[j + 1..]) else []
  {
    var j := SegmentEnd(r, k);
    SplitNoSlash(r[k..j]);
    if j < |r| {
      assert r[k..] == r[k..j] + "/" + r[j + 1..];
      SplitConcat(r[k..j], r[j + 1..]);
    } else {
      assert r[k..] == r[k..j];
    }
  }

  lemma EndsWithSlash(dir: string)
    requires dir != "" && Last(dir) == '/'
    ensures dir == Init(dir) + "/"
  {
  }

  lemma LastSegment(dir: string, file: string)
    requires NoSlash(file) && (dir == "" || Last(dir) == '/')
    ensures Last(Split(dir + file)) == file && Split(dir) == Init(Split(dir + file)) + [""]
  {
    if dir == "" {
      assert dir + file == file;
      SplitNoSlash(file);
    } else {
      EndsWithSlash(dir);
      SplitOffLast(Init(dir), file);
    }
  }

  lemma SplitOffLast(a: string, x: string)
    requires NoSlash(x)
    ensures Last(Split(a + "/" + x)) == x && Split(a + "/") == Init(Split(a + "/" + x)) + [""]
  {
    SplitNoSlash(x);
    SplitConcat(a, x);
    SplitTrailing(a);
    assert Init(Split(a) + [x]) == Split(a);
  }
}
