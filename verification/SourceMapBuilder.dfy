/** Concatenating files and their source maps in one pass. */
module SourceMapBuilders {
  import opened Options
  import opened Integers
  import opened Vlq
  import opened SourceMaps
  import opened DynamicBuffers

  const NEWLINE: Byte := 10
  const SEMICOLON: Byte := 59
  const COMMA: Byte := 44

  method CountNL(b: seq<Byte>) returns (res: nat)
    ensures res == CountByte(b, NEWLINE)
  {
    res := 0;
    var i := 0;
    while i < |b|
      invariant i <= |b| && res == CountByte(b[..i], NEWLINE)
    {
      assert b[..i + 1][..i] == b[..i];
      if b[i] == NEWLINE {
        res := res + 1;
      }
      i := i + 1;
    }
    assert b[..i] == b;
  }

  // ---------------------------------------------------------------- sources

  datatype SourceMap = SourceMap(sources: seq<string>, mappings: seq<Byte>)

  /** A file to be added.  Its content ends with a newline, if there is any, and `sourceLines` counts them. */
  datatype Source = Source(content: seq<Byte>, sourceMap: SourceMap, sourceLines: nat) {
    ghost predicate Valid() {
      sourceLines == CountByte(content, NEWLINE) && (content != [] ==> content[|content| - 1] == NEWLINE)
    }
  }

  /** The constructor of `Source`; a missing map is the empty one. */
  method MakeSource(content: seq<Byte>, sourceMap: Option<SourceMap>) returns (s: Source)
    ensures s.Valid() && s.sourceMap == if sourceMap.Some? then sourceMap.value else SourceMap([], [])
    ensures s.content == if content == [] || content[|content| - 1] == NEWLINE then content else content + [NEWLINE]
  {
    var sourceLines := CountNL(content);
    var text := content;
    if |content| > 0 && content[|content| - 1] != NEWLINE {
      sourceLines := sourceLines + 1;
      CountConcat(content, [NEWLINE], NEWLINE);
      assert CountByte([NEWLINE], NEWLINE) == 1 by { assert [NEWLINE][..0] == []; }
      text := content + [NEWLINE];
    }
    s := Source(text, if sourceMap.Some? then sourceMap.value else SourceMap([], []), sourceLines);
  }

  predicate InAlphabet(b: Byte) {
    b == SEMICOLON || b == COMMA || CharToInteger(b) != 255
  }

  /** Length of the longest prefix without a byte that the reader rejects. */
  function Readable(bytes: seq<Byte>): (k: nat)
    ensures k <= |bytes| && (k < |bytes| ==> !InAlphabet(bytes[k]))
    ensures forall i :: 0 <= i < k ==> InAlphabet(bytes[i])
  {
    if bytes == [] || !InAlphabet(bytes[0]) then 0 else 1 + Readable(bytes[1..])
  }

  /** The mappings of a source, with names. */
  ghost function MeaningOf(source: Source): seq<Entry<string>> {
    match Decode(source.sourceMap.mappings, |source.sourceMap.sources|)
    case None => []
    case Some(es) => Named(es, source.sourceMap.sources)
  }

  ghost predicate Distinct(xs: seq<string>) {
    forall i, j :: 0 <= i < j < |xs| ==> xs[i] != xs[j]
  }

  // ---------------------------------------------------------------- following the input with the output

  ghost function MovedEntry(e: Entry<nat>, lines: nat, remap: seq<nat>): Entry<nat> {
    match e.origin
    case None => Entry(e.line + lines, e.col, None)
    case Some(o) =>
      Entry(e.line + lines, e.col, Some(Origin(if o.source < |remap| then remap[o.source] else 0, o.line, o.col)))
  }

  ghost function Moved(es: seq<Entry<nat>>, lines: nat, remap: seq<nat>): (r: seq<Entry<nat>>)
    ensures |r| == |es|
  {
    seq(|es|, i requires 0 <= i < |es| => MovedEntry(es[i], lines, remap))
  }

  /** Position and pending segment of an output reader between segments. */
  ghost predicate AtRest(out: Scan) {
    && out.Scan? && out.fields == [] && out.digits == []
    && InRange(out.source) && InRange(out.sourceLine) && InRange(out.sourceCol)
  }

  /** The output says about the input read so far what it should: same position, and the same entries moved. */
  ghost predicate Follows(inp: Scan, out: Scan, before: seq<Entry<nat>>, lines: nat, remap: seq<nat>) {
    && inp.Scan? && AtRest(out)
    && out.line == lines + inp.line && out.col == inp.col && InRange(inp.col)
    && out.entries == before + Moved(inp.entries, lines, remap)
  }

  /** The fields written for the open segment of the input. */
  ghost function OutFields(inp: Scan, out: Scan, remap: seq<nat>): seq<int>
    requires inp.Scan? && out.Scan?
    requires |inp.fields| >= 4 ==> 0 <= inp.source + inp.fields[1] < |remap|
  {
    var f := inp.fields;
    if f == [] then []
    else if |f| < 4 then [inp.col + f[0] - out.col]
    else [inp.col + f[0] - out.col, remap[inp.source + f[1]] - out.source,
          inp.sourceLine + f[2] - out.sourceLine, inp.sourceCol + f[3] - out.sourceCol]
  }

  /** The fields `commit` writes for `valpos` fields read. */
  ghost function SegmentFields(valpos: nat, col: int, source: int, line: int, sourceCol: int): seq<int> {
    if valpos == 0 then [] else if valpos == 1 then [col] else [col, source, line, sourceCol]
  }

  /** All new indices are indices of sources, of which there are few enough. */
  ghost predicate RemapOk(remap: seq<nat>, n: nat) {
    n <= TWO30 && forall i :: 0 <= i < |remap| ==> remap[i] < n
  }

  lemma FlushFollows(inp: Scan, out: Scan, before: seq<Entry<nat>>, lines: nat, remap: seq<nat>, n: nat)
    requires Follows(inp, out, before, lines, remap) && RemapOk(remap, n) && Flush(inp, |remap|).Scan?
    ensures |inp.fields| >= 4 ==> 0 <= inp.source + inp.fields[1] < |remap|
    ensures var fields := OutFields(inp, out, remap);
            var out' := Flush(out.(fields := fields), n);
            && Small(fields)
            && Follows(Flush(inp, |remap|), out', before, lines, remap)
            && (fields != [] ==> out'.col == inp.col + inp.fields[0])
            && (|inp.fields| < 4 ==>
                  && out'.source == out.source
                  && out'.sourceLine == out.sourceLine && out'.sourceCol == out.sourceCol)
            && (|inp.fields| >= 4 ==> out'.source == remap[inp.source + inp.fields[1]]
                                      && out'.sourceLine == inp.sourceLine + inp.fields[2]
                                      && out'.sourceCol == inp.sourceCol + inp.fields[3])
  {
    var inp' := Flush(inp, |remap|);
    if inp.fields != [] {
      var e := inp'.entries[|inp.entries|];
      assert inp'.entries == inp.entries + [e];
      assert Moved(inp'.entries, lines, remap) == Moved(inp.entries, lines, remap) + [MovedEntry(e, lines, remap)];
      assert before + (Moved(inp.entries, lines, remap) + [MovedEntry(e, lines, remap)])
          == before + Moved(inp.entries, lines, remap) + [MovedEntry(e, lines, remap)];
    }
  }

  // ---------------------------------------------------------------- the variables of the reading loop

  /** Where the loop of `addSource` is: the line, the running input position, which includes the fields of the
      open segment, the last column written, and the quantity being read. */
  datatype Cursor = Cursor(
    outputLine: nat, inOutputCol: int, inSourceIndex: int, inSourceLine: int, inSourceCol: int,
    lastOutputCol: int, shift: nat, value: int, valpos: nat)

  ghost function FieldOr0(fields: seq<int>, i: nat): int {
    if i < |fields| then fields[i] else 0
  }

  /** The variables agree with the reader `inp`, which adds the fields only at the end of the segment. */
  ghost predicate Reading(inp: Scan, c: Cursor) {
    && inp.Scan? && c.outputLine == inp.line && c.lastOutputCol == inp.col
    && c.valpos == |inp.fields|
    && c.inOutputCol == inp.col + FieldOr0(inp.fields, 0)
    && c.inSourceIndex == inp.source + FieldOr0(inp.fields, 1)
    && c.inSourceLine == inp.sourceLine + FieldOr0(inp.fields, 2)
    && c.inSourceCol == inp.sourceCol + FieldOr0(inp.fields, 3)
    && c.shift == 5 * |inp.digits| && c.value == Raw(inp.digits)
  }

  /** The positions that `commit` is called with are in range. */
  ghost predicate Committable(remap: seq<nat>, c: Cursor) {
    && InRange(c.lastOutputCol)
    && (c.valpos > 0 ==> InRange(c.inOutputCol))
    && (c.valpos > 1 ==> 0 <= c.inSourceIndex < |remap| && InRange(remap[c.inSourceIndex])
                         && InRange(c.inSourceLine) && InRange(c.inSourceCol))
  }

  /** The fields that `commit` writes when the output reader is at `out`. */
  ghost function CommittedFields(remap: seq<nat>, c: Cursor, out: Scan): seq<int>
    requires Committable(remap, c) && out.Scan?
  {
    SegmentFields(c.valpos, c.inOutputCol - c.lastOutputCol,
                  (if c.valpos > 1 then remap[c.inSourceIndex] else 0) - out.source,
                  c.inSourceLine - out.sourceLine, c.inSourceCol - out.sourceCol)
  }

  /** Nothing, the column, or the column and the position in the source: never a name, and all of them differences. */
  lemma CommittedFieldsAre(remap: seq<nat>, c: Cursor, out: Scan)
    requires Committable(remap, c) && out.Scan?
    ensures c.valpos == 0 ==> CommittedFields(remap, c, out) == []
    ensures c.valpos == 1 ==> CommittedFields(remap, c, out) == [c.inOutputCol - c.lastOutputCol]
    ensures c.valpos > 1 ==>
              CommittedFields(remap, c, out) == [c.inOutputCol - c.lastOutputCol, remap[c.inSourceIndex] - out.source,
                                                 c.inSourceLine - out.sourceLine, c.inSourceCol - out.sourceCol]
  {
  }

  lemma PendingIsCommittable(inp: Scan, remap: seq<nat>, n: nat, c: Cursor)
    requires Reading(inp, c) && Flush(inp, |remap|).Scan? && RemapOk(remap, n) && InRange(inp.col)
    ensures Committable(remap, c)
  {
  }

  /** They are the fields that move the output reader along. */
  lemma CommittedIsFlushed(inp: Scan, out: Scan, remap: seq<nat>, c: Cursor)
    requires Reading(inp, c) && Committable(remap, c) && out.Scan? && out.col == inp.col
    requires Flush(inp, |remap|).Scan?
    ensures |inp.fields| >= 4 <==> c.valpos > 1
    ensures OutFields(inp, out, remap) == CommittedFields(remap, c, out)
    ensures inp.col + FieldOr0(inp.fields, 0) == if c.valpos == 0 then c.lastOutputCol else c.inOutputCol
    ensures c.valpos > 1 ==>
              && c.inSourceIndex == inp.source + inp.fields[1]
              && c.inSourceLine == inp.sourceLine + inp.fields[2]
              && c.inSourceCol == inp.sourceCol + inp.fields[3]
  {
  }

  /** A map that can be copied for a content of `sourceLines` lines: it is well formed up to the first byte outside
      the alphabet, and if there is none, it is well formed and maps only lines of the content. */
  ghost predicate Copyable(bytes: seq<Byte>, n: nat, sourceLines: nat) {
    && ScanAll(START, bytes[..Readable(bytes)], n).Scan?
    && (Readable(bytes) == |bytes| ==>
          && Decode(bytes, n).Some?
          && CountByte(bytes, SEMICOLON) <= sourceLines
          && forall i :: 0 <= i < |Decode(bytes, n).value| ==> Decode(bytes, n).value[i].line < sourceLines)
  }

  lemma {:induction false} ReadableIs(p: seq<Byte>, q: seq<Byte>)
    requires (forall i :: 0 <= i < |p| ==> InAlphabet(p[i])) && (q != [] ==> !InAlphabet(q[0]))
    ensures Readable(p + q) == |p|
    decreases |p|
  {
    if p == [] {
      assert p + q == q;
    } else {
      assert (p + q)[0] == p[0] && (p + q)[1..] == p[1..] + q;
      ReadableIs(p[1..], q);
    }
  }

  lemma {:induction false} ScannedIsReadable(bytes: seq<Byte>, n: nat)
    requires ScanAll(START, bytes, n).Scan?
    ensures forall i :: 0 <= i < |bytes| ==> InAlphabet(bytes[i])
    decreases |bytes|
  {
    if bytes != [] {
      var init, last := bytes[..|bytes| - 1], bytes[|bytes| - 1];
      ScannedIsReadable(init, n);
      ScannedByte(ScanAll(START, init, n), last, n);
    }
  }

  lemma ScannedByte(s: Scan, b: Byte, n: nat)
    requires ScanByte(s, b, n).Scan?
    ensures s.Scan? && InAlphabet(b)
  {
  }

  /** A well-formed map with anything behind it can be given to `addSource` if what follows begins with a byte that is
      no base64 digit, `=`, comma or semicolon; that byte is where copying fails. */
  lemma FirstBadByte(map0: seq<Byte>, b: Byte, rest: seq<Byte>, n: nat, sourceLines: nat)
    requires ScanAll(START, map0, n).Scan?
    requires !(48 <= b <= 57 || 65 <= b <= 90 || 97 <= b <= 122 || b == 43 || b == 47 || b == 61 || b == 44 || b == 59)
    ensures Readable(map0 + [b] + rest) == |map0| && Copyable(map0 + [b] + rest, n, sourceLines)
    ensures Readable(map0) == |map0|
  {
    ScannedIsReadable(map0, n);
    ReadableIs(map0, [b] + rest);
    ReadableIs(map0, []);
    assert map0 + ([b] + rest) == map0 + [b] + rest && map0 + [] == map0;
    assert (map0 + [b] + rest)[..|map0|] == map0;
  }

  /** If the map ends on a line below the content, nothing is mapped there. */
  lemma EndOfMap(bytes: seq<Byte>, n: nat, sourceLines: nat)
    requires Copyable(bytes, n, sourceLines) && Readable(bytes) == |bytes|
    ensures var inp := ScanAll(START, bytes, n);
            inp.Scan? && inp.line <= sourceLines && (inp.line == sourceLines ==> inp.fields == [] && inp.col == 0)
  {
    var inp := ScanAll(START, bytes, n);
    ScanLine(bytes, n);
    ScanSane(bytes, n);
    if inp.fields != [] {
      var es := Flush(inp, n).entries;
      assert es[|es| - 1].line == inp.line;
    } else if inp.col != 0 {
      assert inp.entries[|inp.entries| - 1].line == inp.line;
    }
  }

  /** Within a well-formed string the reader goes on with the next byte. */
  lemma NextByte(all: seq<Byte>, seen: seq<Byte>, b: Byte, n: nat)
    requires ScanAll(START, all, n).Scan? && seen + [b] <= all
    ensures ScanAll(START, seen + [b], n).Scan?
    ensures ScanAll(START, seen + [b], n) == ScanByte(ScanAll(START, seen, n), b, n)
  {
    ScanOne(START, seen, b, n);
    ScanPrefix(START, seen + [b], all, n);
  }

  lemma PrefixGrows(seen: seq<Byte>, all: seq<Byte>, bytes: seq<Byte>)
    requires seen <= all <= bytes && |all| == Readable(bytes) && |seen| < |bytes|
    ensures InAlphabet(bytes[|seen|]) <==> |seen| < |all|
    ensures InAlphabet(bytes[|seen|]) ==> seen + [bytes[|seen|]] <= all
  {
  }

  /** Index of a name in the list; the length of the list if it is not there. */
  method IndexOf(xs: seq<string>, x: string) returns (pos: nat)
    ensures pos <= |xs| && (pos < |xs| ==> xs[pos] == x) && (pos == |xs| ==> x !in xs)
  {
    pos := 0;
    while pos < |xs| && xs[pos] != x
      invariant pos <= |xs| && x !in xs[..pos]
    {
      pos := pos + 1;
    }
  }

  /** Moved entries, read with the new names, are the entries read with the old names, further down. */
  lemma NamedMoved(before: seq<Entry<nat>>, es: seq<Entry<nat>>, lines: nat, remap: seq<nat>,
                   olds: seq<string>, news: seq<string>, srcs: seq<string>)
    requires SourcesBelow(before, |olds|) && SourcesBelow(es, |srcs|)
    requires olds <= news && |remap| == |srcs|
    requires forall i :: 0 <= i < |remap| ==> remap[i] < |news| && news[remap[i]] == srcs[i]
    ensures Named(before + Moved(es, lines, remap), news) == Named(before, olds) + Lower(Named(es, srcs), lines)
  {
    var l, r := Named(before + Moved(es, lines, remap), news), Named(before, olds) + Lower(Named(es, srcs), lines);
    forall i | 0 <= i < |l| ensures l[i] == r[i] {
      if i >= |before| {
        assert l[i] == NamedEntry(MovedEntry(es[i - |before|], lines, remap), news);
      }
    }
  }

  // ---------------------------------------------------------------- the builder

  class SourceMapBuilder {
    const outputBuffer: DynamicBuffer
    const mappings: DynamicBuffer
    var sources: seq<string>
    var lastSourceIndex: int
    var lastSourceLine: int
    var lastSourceCol: int

    ghost function Repr(): set<object>
      reads this, outputBuffer, mappings
    {
      {this} + outputBuffer.Repr() + mappings.Repr()
    }

    ghost predicate Shape()
      reads this, outputBuffer, mappings
    {
      && outputBuffer.Valid() && mappings.Valid()
      && outputBuffer != mappings && outputBuffer.buffer != mappings.buffer
    }

    /** The reader of the mappings written so far. */
    ghost function Out(): Scan
      reads this, mappings, mappings.buffer
      requires mappings.Valid()
    {
      ScanAll(START, mappings.Contents(), |sources|)
    }

    /** The mappings written so far can be read, and the fields of the builder are where the reader is. */
    ghost predicate InStep()
      reads this, outputBuffer, mappings, mappings.buffer
    {
      && Shape() && AtRest(Out())
      && Out().source == lastSourceIndex && Out().sourceLine == lastSourceLine && Out().sourceCol == lastSourceCol
    }

    ghost predicate Synced()
      reads this, outputBuffer, mappings, mappings.buffer
    {
      InStep() && |sources| <= TWO30 && Distinct(sources)
    }

    /** Between calls the mappings are at the start of a line: as many semicolons as newlines in the output. */
    ghost predicate Valid()
      reads this, outputBuffer, outputBuffer.buffer, mappings, mappings.buffer
    {
      Synced() && Out().col == 0 && Out().line == CountByte(outputBuffer.Contents(), NEWLINE)
    }

    /** What the written source map means. */
    ghost function Meaning(): seq<Entry<string>>
      reads this, outputBuffer, mappings, mappings.buffer
      requires Synced()
    {
      Named(Out().entries, sources)
    }

    constructor ()
      ensures Valid() && fresh(Repr()) && sources == [] && Meaning() == [] && outputBuffer.Contents() == []
    {
      var o := new DynamicBuffer();
      var m := new DynamicBuffer();
      outputBuffer, mappings := o, m;
      sources := [];
      lastSourceIndex, lastSourceLine, lastSourceCol := 0, 0, 0;
    }

    // -------------------------------------------------------------- writing separators and segments

    method AddSemicolon()
      requires Shape()
      modifies mappings, mappings.buffer
      ensures Shape() && mappings.Contents() == old(mappings.Contents()) + [SEMICOLON]
      ensures mappings.buffer == old(mappings.buffer) || fresh(mappings.buffer)
      ensures Out() == ScanByte(old(Out()), SEMICOLON, |sources|)
    {
      ScanOne(START, mappings.Contents(), SEMICOLON, |sources|);
      mappings.AddByte(SEMICOLON);
    }

    method AddComma()
      requires Shape()
      modifies mappings, mappings.buffer
      ensures Shape() && mappings.Contents() == old(mappings.Contents()) + [COMMA]
      ensures mappings.buffer == old(mappings.buffer) || fresh(mappings.buffer)
      ensures Out() == ScanByte(old(Out()), COMMA, |sources|)
    {
      ScanOne(START, mappings.Contents(), COMMA, |sources|);
      mappings.AddByte(COMMA);
    }

    method AddField(num: int)
      requires Shape() && Out().Scan? && Out().digits == [] && -TWO30 < num < TWO30
      modifies mappings, mappings.buffer
      ensures Shape() && (mappings.buffer == old(mappings.buffer) || fresh(mappings.buffer))
      ensures Out() == old(Out()).(fields := old(Out()).fields + [num])
    {
      ScanConcat(START, mappings.Contents(), VlqBytes(num), |sources|);
      ScanVlq(Out(), num, |sources|);
      mappings.AddVlq(num);
    }

    /** The second half of a segment: source, line and column, as differences to the last ones written. */
    method AddOrigin(outSourceIndex: int, inSourceLine: int, inSourceCol: int)
      requires Shape() && Out().Scan? && Out().digits == []
      requires InRange(lastSourceIndex) && InRange(lastSourceLine) && InRange(lastSourceCol)
      requires InRange(outSourceIndex) && InRange(inSourceLine) && InRange(inSourceCol)
      modifies this`lastSourceIndex, this`lastSourceLine, this`lastSourceCol, mappings, mappings.buffer
      ensures Shape() && (mappings.buffer == old(mappings.buffer) || fresh(mappings.buffer))
      ensures lastSourceIndex == outSourceIndex && lastSourceLine == inSourceLine && lastSourceCol == inSourceCol
      ensures Out() == old(Out()).(fields := old(Out()).fields + [outSourceIndex - old(lastSourceIndex),
                inSourceLine - old(lastSourceLine), inSourceCol - old(lastSourceCol)])
    {
      ghost var f := Out().fields;
      var a, b, c := outSourceIndex - lastSourceIndex, inSourceLine - lastSourceLine, inSourceCol - lastSourceCol;
      AddField(a);
      AddField(b);
      AddField(c);
      ThreeMore(f, a, b, c);
      lastSourceIndex, lastSourceLine, lastSourceCol := outSourceIndex, inSourceLine, inSourceCol;
    }

    static lemma ThreeMore(f: seq<int>, a: int, b: int, c: int)
      ensures f + [a] + [b] + [c] == f + [a, b, c]
    {
    }

    /** A segment of four fields. */
    method AddSegment(col: int, outSourceIndex: int, inSourceLine: int, inSourceCol: int)
      requires Shape() && Out().Scan? && Out().digits == [] && Out().fields == [] && -TWO30 < col < TWO30
      requires InRange(lastSourceIndex) && InRange(lastSourceLine) && InRange(lastSourceCol)
      requires InRange(outSourceIndex) && InRange(inSourceLine) && InRange(inSourceCol)
      modifies this`lastSourceIndex, this`lastSourceLine, this`lastSourceCol, mappings, mappings.buffer
      ensures Shape() && (mappings.buffer == old(mappings.buffer) || fresh(mappings.buffer))
      ensures lastSourceIndex == outSourceIndex && lastSourceLine == inSourceLine && lastSourceCol == inSourceCol
      ensures Out() == old(Out()).(fields := [col, outSourceIndex - old(lastSourceIndex),
                inSourceLine - old(lastSourceLine), inSourceCol - old(lastSourceCol)])
    {
      ghost var a, b, c := outSourceIndex - lastSourceIndex, inSourceLine - lastSourceLine, inSourceCol - lastSourceCol;
      AddField(col);
      AddOrigin(outSourceIndex, inSourceLine, inSourceCol);
      assert [] + [col] + [a, b, c] == [col, a, b, c];
    }

    /** `commit`: write the open segment of the input, as differences.  With no field there is nothing to write;
        with one field only the column. */
    method Commit(remap: seq<nat>, c: Cursor) returns (lastOutputCol: int)
      requires InStep() && Committable(remap, c)
      modifies this`lastSourceIndex, this`lastSourceLine, this`lastSourceCol, mappings, mappings.buffer
      ensures Shape() && (mappings.buffer == old(mappings.buffer) || fresh(mappings.buffer))
      ensures Out() == old(Out()).(fields := CommittedFields(remap, c, old(Out())))
      ensures lastOutputCol == if c.valpos == 0 then c.lastOutputCol else c.inOutputCol
      ensures c.valpos <= 1 ==> lastSourceIndex == old(lastSourceIndex) && lastSourceLine == old(lastSourceLine)
                                && lastSourceCol == old(lastSourceCol)
      ensures c.valpos > 1 ==> lastSourceIndex == remap[c.inSourceIndex] && lastSourceLine == c.inSourceLine
                               && lastSourceCol == c.inSourceCol
    {
      lastOutputCol := c.lastOutputCol;
      if c.valpos == 0 {
        return;
      }
      if c.valpos == 1 {
        AddField(c.inOutputCol - lastOutputCol);
      } else {
        AddSegment(c.inOutputCol - lastOutputCol, remap[c.inSourceIndex], c.inSourceLine, c.inSourceCol);
      }
      lastOutputCol := c.inOutputCol;
    }

    // -------------------------------------------------------------- copying the mappings of one source

    /** The end of a quantity: the lowest bit is the sign. */
    static method FinishValue(value: int) returns (field: int)
      requires 0 <= value < TWO31
      ensures field == Signed(value)
    {
      SignIsExact(value);
      var shouldNegate := ToInt32(value) % 2 == 1;
      field := ShiftRight(value, 1);
      if shouldNegate {
        field := -field;
      }
    }

    /** One digit of a quantity: `done` if it is the last one, and then `field` is the value. */
    static method ReadDigit(ghost digits: seq<nat>, b: nat, shift: nat, value: int)
      returns (shift': nat, value': int, done: bool, field: int)
      requires shift == 5 * |digits| && value == Raw(digits) && b < 64 && Raw(digits + [b]) < TWO31
      ensures done == (b < 32)
      ensures !done ==> shift' == 5 * |digits + [b]| && value' == Raw(digits + [b])
      ensures done ==> shift' == 0 && value' == 0 && field == Signed(Raw(digits + [b]))
    {
      ghost var raw := Raw(digits + [b]);
      ShiftIsExact(digits, b);
      value' := value + ShiftLeft(b % 32, shift);
      assert value' == raw;
      field, done := 0, b / 32 % 2 == 0;
      if done {
        field := FinishValue(value');
        shift', value' := 0, 0;
      } else {
        shift' := shift + 5;
      }
    }

    /** A digit of the input: it moves the running position when it ends a field. */
    static method TakeDigit(ghost inp: Scan, ghost n: nat, byte: Byte, c: Cursor) returns (c': Cursor)
      requires byte != SEMICOLON && byte != COMMA && ScanByte(inp, byte, n).Scan? && Reading(inp, c)
      ensures Reading(ScanByte(inp, byte, n), c')
    {
      var shift, value, done, field := ReadDigit(inp.digits, CharToInteger(byte), c.shift, c.value);
      c' := c.(shift := shift, value := value);
      if done {
        if c.valpos == 0 {
          c' := c'.(inOutputCol := c.inOutputCol + field);
        } else if c.valpos == 1 {
          c' := c'.(inSourceIndex := c.inSourceIndex + field);
        } else if c.valpos == 2 {
          c' := c'.(inSourceLine := c.inSourceLine + field);
        } else if c.valpos == 3 {
          c' := c'.(inSourceCol := c.inSourceCol + field);
        }
        c' := c'.(valpos := c.valpos + 1);
      }
    }

    /** A separator of the input: write the open segment and the separator. */
    method CopySeparator(ghost inp: Scan, ghost before: seq<Entry<nat>>, ghost lines: nat, remap: seq<nat>,
                         separator: Byte, c: Cursor) returns (c': Cursor)
      requires InStep() && Follows(inp, Out(), before, lines, remap) && RemapOk(remap, |sources|)
      requires Reading(inp, c) && Flush(inp, |remap|).Scan? && (separator == SEMICOLON || separator == COMMA)
      modifies this`lastSourceIndex, this`lastSourceLine, this`lastSourceCol, mappings, mappings.buffer
      ensures InStep() && (mappings.buffer == old(mappings.buffer) || fresh(mappings.buffer))
      ensures Follows(ScanByte(inp, separator, |remap|), Out(), before, lines, remap)
      ensures Reading(ScanByte(inp, separator, |remap|), c')
    {
      FlushFollows(inp, Out(), before, lines, remap, |sources|);
      PendingIsCommittable(inp, remap, |sources|, c);
      CommittedIsFlushed(inp, Out(), remap, c);
      var lastOutputCol := Commit(remap, c);
      if separator == SEMICOLON {
        AddSemicolon();
        c' := c.(inOutputCol := 0, lastOutputCol := 0, valpos := 0, outputLine := c.outputLine + 1);
      } else {
        AddComma();
        c' := c.(lastOutputCol := lastOutputCol, valpos := 0);
      }
    }

    /** One byte of the input; `ok` is false when the byte is rejected. */
    method CopyByte(ghost inp: Scan, ghost before: seq<Entry<nat>>, ghost lines: nat,
                    remap: seq<nat>, b: Byte, c: Cursor)
      returns (ok: bool, c': Cursor)
      requires InStep() && Follows(inp, Out(), before, lines, remap) && RemapOk(remap, |sources|)
      requires Reading(inp, c) && (InAlphabet(b) ==> ScanByte(inp, b, |remap|).Scan?)
      modifies this`lastSourceIndex, this`lastSourceLine, this`lastSourceCol, mappings, mappings.buffer
      ensures InStep() && (mappings.buffer == old(mappings.buffer) || fresh(mappings.buffer))
      ensures ok == InAlphabet(b)
      ensures ok ==> Follows(ScanByte(inp, b, |remap|), Out(), before, lines, remap)
      ensures ok ==> Reading(ScanByte(inp, b, |remap|), c')
    {
      if b == SEMICOLON || b == COMMA {
        c' := CopySeparator(inp, before, lines, remap, b, c);
        return true, c';
      }
      if CharToInteger(b) == 255 {
        return false, c;
      }
      c' := TakeDigit(inp, |remap|, b, c);
      return true, c';
    }

    /** The lines of the source after its last mapped line. */
    method PadLines(outputLine: nat, sourceLines: nat)
      requires Shape() && Flush(Out(), |sources|).Scan? && outputLine < sourceLines
      modifies mappings, mappings.buffer
      ensures Shape() && (mappings.buffer == old(mappings.buffer) || fresh(mappings.buffer))
      ensures var f := Flush(old(Out()), |sources|);
              Out() == f.(line := f.line + (sourceLines - outputLine), col := 0)
    {
      ghost var f := Flush(Out(), |sources|);
      AddSemicolon();
      var line := outputLine + 1;
      while line < sourceLines
        invariant outputLine < line <= sourceLines
        invariant Shape() && (mappings.buffer == old(mappings.buffer) || fresh(mappings.buffer))
        invariant Out() == f.(line := f.line + (line - outputLine), col := 0)
      {
        AddSemicolon();
        line := line + 1;
      }
    }

    /** After the last byte of the input: write the open segment and the remaining lines. */
    method FinishMappings(ghost inp: Scan, ghost before: seq<Entry<nat>>, ghost lines: nat, remap: seq<nat>,
                          c: Cursor, sourceLines: nat)
      requires InStep() && Follows(inp, Out(), before, lines, remap) && RemapOk(remap, |sources|)
      requires Reading(inp, c) && Flush(inp, |remap|).Scan?
      requires inp.line <= sourceLines && (inp.line == sourceLines ==> inp.fields == [] && inp.col == 0)
      modifies this`lastSourceIndex, this`lastSourceLine, this`lastSourceCol, mappings, mappings.buffer
      ensures InStep() && (mappings.buffer == old(mappings.buffer) || fresh(mappings.buffer))
      ensures Out().col == 0 && Out().line == lines + sourceLines
      ensures Out().entries == before + Moved(Flush(inp, |remap|).entries, lines, remap)
    {
      FlushFollows(inp, Out(), before, lines, remap, |sources|);
      PendingIsCommittable(inp, remap, |sources|, c);
      CommittedIsFlushed(inp, Out(), remap, c);
      var _ := Commit(remap, c);
      if c.outputLine < sourceLines {
        PadLines(c.outputLine, sourceLines);
      }
    }

    /** One turn of the reading loop of `addSource`, after the bytes `seen`; `all` are the bytes up to the first one
        outside the alphabet. */
    method CopyNext(b: Byte, ghost all: seq<Byte>, ghost seen: seq<Byte>, ghost before: seq<Entry<nat>>,
                    ghost lines: nat, remap: seq<nat>, c: Cursor) returns (ok: bool, c': Cursor)
      requires InAlphabet(b) ==> seen + [b] <= all
      requires ScanAll(START, all, |remap|).Scan? && RemapOk(remap, |sources|) && InStep()
      requires var inp := ScanAll(START, seen, |remap|); Reading(inp, c) && Follows(inp, Out(), before, lines, remap)
      modifies this`lastSourceIndex, this`lastSourceLine, this`lastSourceCol, mappings, mappings.buffer
      ensures InStep() && (mappings.buffer == old(mappings.buffer) || fresh(mappings.buffer)) && ok == InAlphabet(b)
      ensures ok ==> var inp := ScanAll(START, seen + [b], |remap|);
                     Reading(inp, c') && Follows(inp, Out(), before, lines, remap)
    {
      if InAlphabet(b) {
        NextByte(all, seen, b, |remap|);
      }
      ok, c' := CopyByte(ScanAll(START, seen, |remap|), before, lines, remap, b, c);
    }

    /** The reading loop of `addSource`, over the bytes from the first to the last. */
    method CopyBytes(inputMappings: seq<Byte>, ghost all: seq<Byte>, ghost before: seq<Entry<nat>>,
                     ghost lines: nat, remap: seq<nat>) returns (ok: bool, c: Cursor)
      requires InStep() && Follows(START, Out(), before, lines, remap) && RemapOk(remap, |sources|)
      requires all <= inputMappings && |all| == Readable(inputMappings) && ScanAll(START, all, |remap|).Scan?
      modifies this`lastSourceIndex, this`lastSourceLine, this`lastSourceCol, mappings, mappings.buffer
      ensures InStep() && (mappings.buffer == old(mappings.buffer) || fresh(mappings.buffer))
      ensures ok <==> |all| == |inputMappings|
      ensures ok ==> var inp := ScanAll(START, all, |remap|);
                     Reading(inp, c) && Follows(inp, Out(), before, lines, remap)
    {
      c := Cursor(0, 0, 0, 0, 0, 0, 0, 0, 0);
      ok := true;
      var ip := 0;
      ghost var seen: seq<Byte> := [];
      while ip < |inputMappings|
        invariant ip == |seen| <= |inputMappings| && seen <= all && InStep()
        invariant mappings.buffer == old(mappings.buffer) || fresh(mappings.buffer)
        invariant var inp := ScanAll(START, seen, |remap|);
                  Reading(inp, c) && Follows(inp, Out(), before, lines, remap)
      {
        PrefixGrows(seen, all, inputMappings);
        ok, c := CopyNext(inputMappings[ip], all, seen, before, lines, remap, c);
        if !ok {
          return;
        }
        seen := seen + [inputMappings[ip]];
        ip := ip + 1;
      }
      assert seen == all;
      ok := true;
    }

    method CopyMappings(inputMappings: seq<Byte>, sourceLines: nat, remap: seq<nat>) returns (ok: bool)
      requires InStep() && Out().col == 0 && RemapOk(remap, |sources|)
      requires Copyable(inputMappings, |remap|, sourceLines)
      modifies this`lastSourceIndex, this`lastSourceLine, this`lastSourceCol, mappings, mappings.buffer
      ensures InStep() && (mappings.buffer == old(mappings.buffer) || fresh(mappings.buffer))
      ensures ok <==> Readable(inputMappings) == |inputMappings|
      ensures ok ==> Out().col == 0 && Out().line == old(Out()).line + sourceLines
                     && Out().entries
                        == old(Out()).entries + Moved(Decode(inputMappings, |remap|).value, old(Out()).line, remap)
    {
      ghost var before, lines := Out().entries, Out().line;
      assert before + Moved([], lines, remap) == before;
      var c;
      ghost var all := inputMappings[..Readable(inputMappings)];
      ok, c := CopyBytes(inputMappings, all, before, lines, remap);
      if ok {
        assert all == inputMappings;
        EndOfMap(inputMappings, |remap|, sourceLines);
        FinishMappings(ScanAll(START, inputMappings, |remap|), before, lines, remap, c, sourceLines);
      }
    }

    // -------------------------------------------------------------- adding text and sources

    /** The newlines of the output are the semicolons of the mappings. */
    lemma SemicolonsAreNewlines()
      requires Valid()
      ensures CountByte(mappings.Contents(), SEMICOLON) == CountByte(outputBuffer.Contents(), NEWLINE)
    {
      ScanLine(mappings.Contents(), |sources|);
    }

    /** Take over the names of a map that are new, and say where each of its names has gone. */
    method MergeSources(srcs: seq<string>) returns (remap: seq<nat>)
      requires Synced() && |sources| + |srcs| <= TWO30
      modifies this`sources
      ensures Synced() && old(sources) <= sources && Out() == old(Out())
      ensures |sources| <= |old(sources)| + |srcs|
      ensures |remap| == |srcs| && RemapOk(remap, |sources|)
      ensures forall i :: 0 <= i < |srcs| ==> sources[remap[i]] == srcs[i]
    {
      remap := [];
      var k := 0;
      while k < |srcs|
        invariant k <= |srcs| && |remap| == k
        invariant Distinct(sources) && old(sources) <= sources && |sources| <= |old(sources)| + k
        invariant forall i :: 0 <= i < k ==> remap[i] < |sources| && sources[remap[i]] == srcs[i]
      {
        var pos := IndexOf(sources, srcs[k]);
        if pos == |sources| {
          sources := sources + [srcs[k]];
        }
        remap := remap + [pos];
        k := k + 1;
      }
      ScanMoreSources(mappings.Contents(), |old(sources)|, |sources|);
    }

    /** `addLine`: one line of text that maps nothing.  The builder stays consistent exactly if the text has no
        newline in it. */
    method AddLine(text: seq<Byte>)
      requires Valid()
      modifies outputBuffer, outputBuffer.buffer, mappings, mappings.buffer
      ensures outputBuffer.buffer == old(outputBuffer.buffer) || fresh(outputBuffer.buffer)
      ensures mappings.buffer == old(mappings.buffer) || fresh(mappings.buffer)
      ensures sources == old(sources)
      ensures Synced() && Meaning() == old(Meaning())
      ensures outputBuffer.Contents() == old(outputBuffer.Contents()) + text + [NEWLINE]
      ensures mappings.Contents() == old(mappings.Contents()) + [SEMICOLON]
      ensures Valid() <==> CountByte(text, NEWLINE) == 0
    {
      CountConcat(outputBuffer.Contents(), text, NEWLINE);
      CountConcat(outputBuffer.Contents() + text, [NEWLINE], NEWLINE);
      assert CountByte([NEWLINE], NEWLINE) == 1 by { assert [NEWLINE][..0] == []; }
      outputBuffer.AddBuffer(text);
      outputBuffer.AddByte(NEWLINE);
      AddSemicolon();
    }

    /** `addSource`: append the content, and extend the map by the map of the source, with its lines below what was
        there and its names kept.  A byte outside the alphabet of mappings makes it fail. */
    method AddSource(source: Source) returns (ok: bool)
      requires Valid() && source.Valid() && |sources| + |source.sourceMap.sources| <= TWO30
      requires Copyable(source.sourceMap.mappings, |source.sourceMap.sources|, source.sourceLines)
      modifies this, outputBuffer, outputBuffer.buffer, mappings, mappings.buffer
      ensures outputBuffer.buffer == old(outputBuffer.buffer) || fresh(outputBuffer.buffer)
      ensures mappings.buffer == old(mappings.buffer) || fresh(mappings.buffer)
      ensures Shape()
      ensures old(sources) <= sources && |sources| <= |old(sources)| + |source.sourceMap.sources|
      ensures outputBuffer.Contents() == old(outputBuffer.Contents()) + source.content
      ensures ok <==> Readable(source.sourceMap.mappings) == |source.sourceMap.mappings|
      ensures ok ==> && Valid()
                     && Meaning() == old(Meaning())
                        + Lower(MeaningOf(source), CountByte(old(outputBuffer.Contents()), NEWLINE))
    {
      ghost var n, before := |source.sourceMap.sources|, Out();
      CountConcat(outputBuffer.Contents(), source.content, NEWLINE);
      ScanSane(mappings.Contents(), |sources|);
      ScanSane(source.sourceMap.mappings, n);
      outputBuffer.AddBuffer(source.content);
      var remap := MergeSources(source.sourceMap.sources);
      ok := CopyMappings(source.sourceMap.mappings, source.sourceLines, remap);
      if ok {
        NamedMoved(before.entries, Decode(source.sourceMap.mappings, n).value, before.line, remap,
                   old(sources), sources, source.sourceMap.sources);
      }
    }

    method ToContent() returns (content: seq<Byte>)
      requires Shape()
      ensures content == outputBuffer.Contents()
    {
      content := outputBuffer.buffer[..outputBuffer.size];
    }

    /** `toSourceMap`: reading the result gives the meaning. */
    method ToSourceMap() returns (m: SourceMap)
      requires Valid()
      ensures m == SourceMap(sources, mappings.Contents()) && Distinct(m.sources)
      ensures Decode(m.mappings, |m.sources|).Some?
      ensures Named(Decode(m.mappings, |m.sources|).value, m.sources) == Meaning()
    {
      m := SourceMap(sources, mappings.buffer[..mappings.size]);
    }
  }
}
