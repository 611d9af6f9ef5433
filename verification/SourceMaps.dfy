/** The meaning of a `mappings` string of a source map (ECMA-426): the positions it lists. */
module SourceMaps {
  import opened Options
  import opened Integers
  import opened Vlq

  datatype Origin<S> = Origin(source: S, line: int, col: int)

  /** One mapping: a position in the generated text and where it comes from, if that is known. */
  datatype Entry<S> = Entry(line: nat, col: int, origin: Option<Origin<S>>)

  // ---------------------------------------------------------------- reading a mappings string

  /** A reader in the middle of a string: the position in the output, the last source position, the fields of the
      open segment, the digits of the open field, and the entries so far. */
  datatype Scan =
    | Malformed
    | Scan(line: nat, col: int, source: int, sourceLine: int, sourceCol: int,
           fields: seq<int>, digits: seq<nat>, entries: seq<Entry<nat>>)

  const START := Scan(0, 0, 0, 0, 0, [], [], [])

  predicate InRange(x: int) {
    0 <= x < TWO30
  }

  /** The end of a segment.  A segment has one, four or five fields, of which the fifth, the name, is not
      represented here; positions are not negative and below 2^30, and there are `n` sources. */
  function Flush(s: Scan, n: nat): Scan {
    if s.Malformed? || s.digits != [] then Malformed
    else if s.fields == [] then s
    else
      var col := s.col + s.fields[0];
      if !InRange(col) then Malformed
      else if |s.fields| == 1 then
        s.(col := col, fields := [], entries := s.entries + [Entry(s.line, col, None)])
      else if |s.fields| == 4 || |s.fields| == 5 then
        var src, l, c := s.source + s.fields[1], s.sourceLine + s.fields[2], s.sourceCol + s.fields[3];
        if InRange(src) && src < n && InRange(l) && InRange(c) then
          Scan(s.line, col, src, l, c, [], [], s.entries + [Entry(s.line, col, Some(Origin(src, l, c)))])
        else Malformed
      else Malformed
  }

  /** Semicolons end lines, commas end segments, everything else must be a digit of a 32-bit quantity. */
  function ScanByte(s: Scan, b: Byte, n: nat): Scan {
    if s.Malformed? then Malformed
    else if b == 59 then
      var f := Flush(s, n);
      if f.Malformed? then Malformed else f.(line := f.line + 1, col := 0)
    else if b == 44 then Flush(s, n)
    else
      var d := CharToInteger(b);
      var ds := s.digits + [d];
      if d >= 64 || Raw(ds) >= TWO31 then Malformed
      else if d >= 32 then s.(digits := ds)
      else s.(fields := s.fields + [Signed(Raw(ds))], digits := [])
  }

  function ScanAll(s: Scan, bytes: seq<Byte>, n: nat): Scan {
    if bytes == [] then s else ScanByte(ScanAll(s, bytes[..|bytes| - 1], n), bytes[|bytes| - 1], n)
  }

  /** The entries of a mappings string over `n` sources, if it is well formed. */
  function Decode(bytes: seq<Byte>, n: nat): Option<seq<Entry<nat>>> {
    var f := Flush(ScanAll(START, bytes, n), n);
    if f.Malformed? then None else Some(f.entries)
  }

  // ---------------------------------------------------------------- names instead of indices

  function NamedEntry(e: Entry<nat>, sources: seq<string>): Entry<string> {
    match e.origin
    case None => Entry(e.line, e.col, None)
    case Some(o) =>
      Entry(e.line, e.col, Some(Origin(if o.source < |sources| then sources[o.source] else "", o.line, o.col)))
  }

  function Named(es: seq<Entry<nat>>, sources: seq<string>): (r: seq<Entry<string>>)
    ensures |r| == |es|
  {
    seq(|es|, i requires 0 <= i < |es| => NamedEntry(es[i], sources))
  }

  /** The same mappings, `k` lines further down. */
  function Lower(es: seq<Entry<string>>, k: nat): (r: seq<Entry<string>>)
    ensures |r| == |es|
  {
    seq(|es|, i requires 0 <= i < |es| => es[i].(line := es[i].line + k))
  }

  ghost predicate SourcesBelow(es: seq<Entry<nat>>, n: nat) {
    forall i :: 0 <= i < |es| && es[i].origin.Some? ==> es[i].origin.value.source < n
  }

  // ---------------------------------------------------------------- facts about reading

  lemma {:induction false} ScanConcat(s: Scan, a: seq<Byte>, b: seq<Byte>, n: nat)
    ensures ScanAll(s, a + b, n) == ScanAll(ScanAll(s, a, n), b, n)
    decreases |b|
  {
    if b == [] {
      assert a + b == a;
    } else {
      assert (a + b)[..|a + b| - 1] == a + b[..|b| - 1];
      ScanConcat(s, a, b[..|b| - 1], n);
    }
  }

  lemma ScanOne(s: Scan, a: seq<Byte>, b: Byte, n: nat)
    ensures ScanAll(s, a + [b], n) == ScanByte(ScanAll(s, a, n), b, n)
  {
    assert (a + [b])[..|a|] == a;
  }

  /** Once malformed, always malformed. */
  lemma {:induction false} ScanStuck(bytes: seq<Byte>, n: nat)
    ensures ScanAll(Malformed, bytes, n) == Malformed
    decreases |bytes|
  {
    if bytes != [] {
      ScanStuck(bytes[..|bytes| - 1], n);
    }
  }

  lemma ScanPrefix(s: Scan, a: seq<Byte>, b: seq<Byte>, n: nat)
    requires a <= b && ScanAll(s, b, n).Scan?
    ensures ScanAll(s, a, n).Scan?
  {
    assert b == a + b[|a|..];
    ScanConcat(s, a, b[|a|..], n);
    if ScanAll(s, a, n).Malformed? {
      ScanStuck(b[|a|..], n);
    }
  }

  /** More sources do not change what a well-formed string means. */
  lemma {:induction false} ScanMoreSources(bytes: seq<Byte>, n: nat, m: nat)
    requires n <= m && ScanAll(START, bytes, n).Scan?
    ensures ScanAll(START, bytes, m) == ScanAll(START, bytes, n)
    decreases |bytes|
  {
    if bytes != [] {
      ScanMoreSources(bytes[..|bytes| - 1], n, m);
    }
  }

  /** What every reader state satisfies: sources are in range, lines do not pass the current one, and the column
      is zero until something is mapped on the line. */
  ghost predicate Sane(s: Scan, n: nat) {
    s.Scan? ==>
      && SourcesBelow(s.entries, n)
      && (forall i :: 0 <= i < |s.entries| ==> s.entries[i].line <= s.line)
      && (s.col != 0 ==> s.entries != [] && s.entries[|s.entries| - 1].line == s.line)
      && 0 <= s.col
  }

  lemma FlushSane(s: Scan, n: nat)
    requires Sane(s, n)
    ensures Sane(Flush(s, n), n)
  {
  }

  lemma ByteSane(s: Scan, b: Byte, n: nat)
    requires Sane(s, n)
    ensures Sane(ScanByte(s, b, n), n)
  {
    FlushSane(s, n);
  }

  lemma {:induction false} ScanSane(bytes: seq<Byte>, n: nat)
    ensures Sane(ScanAll(START, bytes, n), n)
    decreases |bytes|
  {
    if bytes != [] {
      var init, last := bytes[..|bytes| - 1], bytes[|bytes| - 1];
      ScanSane(init, n);
      ByteSane(ScanAll(START, init, n), last, n);
    }
  }

  function CountByte(bytes: seq<Byte>, b: Byte): nat {
    if bytes == [] then 0 else CountByte(bytes[..|bytes| - 1], b) + if bytes[|bytes| - 1] == b then 1 else 0
  }

  lemma {:induction false} CountConcat(a: seq<Byte>, b: seq<Byte>, x: Byte)
    ensures CountByte(a + b, x) == CountByte(a, x) + CountByte(b, x)
    decreases |b|
  {
    if b == [] {
      assert a + b == a;
    } else {
      assert (a + b)[..|a + b| - 1] == a + b[..|b| - 1];
      CountConcat(a, b[..|b| - 1], x);
    }
  }

  /** The line of the reader is the number of semicolons. */
  lemma {:induction false} ScanLine(bytes: seq<Byte>, n: nat)
    requires ScanAll(START, bytes, n).Scan?
    ensures ScanAll(START, bytes, n).line == CountByte(bytes, 59)
    decreases |bytes|
  {
    if bytes != [] {
      ScanLine(bytes[..|bytes| - 1], n);
    }
  }

  // ---------------------------------------------------------------- reading what is written

  lemma {:induction false} RawMonotone(ds: seq<nat>, k: nat)
    requires k <= |ds|
    ensures Raw(ds[..k]) <= Raw(ds)
    decreases |ds|
  {
    if k == |ds| {
      assert ds[..k] == ds;
    } else {
      RawMonotone(ds[..|ds| - 1], k);
      assert ds[..|ds| - 1][..k] == ds[..k];
      Times(ds[|ds| - 1] % 32, Pow32(|ds| - 1));
    }
  }

  /** A digit that is not the last one of its quantity. */
  lemma OpenDigit(s: Scan, ds: seq<nat>, d: nat, n: nat)
    requires s.Scan? && s.digits == ds && 32 <= d < 64 && Raw(ds + [d]) < TWO31
    ensures ScanByte(s, IntegerToChar(d), n) == s.(digits := ds + [d])
  {
    AlphabetRoundTrip(d);
  }

  lemma CharsTake(ds: seq<nat>, k: nat)
    requires k < |ds| && forall i :: 0 <= i < |ds| ==> ds[i] < 64
    ensures Chars(ds)[..k + 1] == Chars(ds)[..k] + [IntegerToChar(ds[k])] && ds[..k + 1] == ds[..k] + [ds[k]]
  {
  }

  lemma {:induction false} ScanDigits(s: Scan, ds: seq<nat>, k: nat, n: nat)
    requires s.Scan? && s.digits == [] && Complete(ds) && Raw(ds) < TWO31 && k < |ds|
    requires forall i :: 0 <= i < |ds| ==> ds[i] < 64
    ensures ScanAll(s, Chars(ds)[..k], n) == s.(digits := ds[..k])
  {
    if k > 0 {
      var before, d := Chars(ds)[..k - 1], ds[k - 1];
      ScanDigits(s, ds, k - 1, n);
      CharsTake(ds, k - 1);
      ScanOne(s, before, IntegerToChar(d), n);
      RawMonotone(ds, k);
      OpenDigit(s.(digits := ds[..k - 1]), ds[..k - 1], d, n);
    }
  }

  lemma LastDigit(s: Scan, ds: seq<nat>, n: nat)
    requires s.Scan? && Complete(ds) && Raw(ds) < TWO31 && s.digits == ds[..|ds| - 1]
    ensures ScanByte(s, IntegerToChar(ds[|ds| - 1]), n) == s.(fields := s.fields + [Signed(Raw(ds))], digits := [])
  {
    AlphabetRoundTrip(ds[|ds| - 1]);
    assert s.digits + [ds[|ds| - 1]] == ds;
  }

  lemma ScanComplete(s: Scan, ds: seq<nat>, n: nat)
    requires s.Scan? && s.digits == [] && Complete(ds) && Raw(ds) < TWO31
    requires forall i :: 0 <= i < |ds| ==> ds[i] < 64
    ensures ScanAll(s, Chars(ds), n) == s.(fields := s.fields + [Signed(Raw(ds))])
  {
    var k := |ds| - 1;
    ScanDigits(s, ds, k, n);
    assert Chars(ds) == Chars(ds)[..k] + [IntegerToChar(ds[k])];
    ScanOne(s, Chars(ds)[..k], IntegerToChar(ds[k]), n);
    LastDigit(s.(digits := ds[..k]), ds, n);
  }

  /** Reading the bytes of an integer of magnitude below 2^30 adds that integer to the open segment. */
  lemma ScanVlq(s: Scan, num: int, n: nat)
    requires s.Scan? && s.digits == [] && -TWO30 < num < TWO30
    ensures ScanAll(s, VlqBytes(num), n) == s.(fields := s.fields + [num])
  {
    VlqRoundTrip(num);
    ScanComplete(s, Encoded(num), n);
  }

  /** The bytes of a segment. */
  function SegmentBytes(fields: seq<int>): seq<Byte> {
    if fields == [] then [] else SegmentBytes(fields[..|fields| - 1]) + VlqBytes(fields[|fields| - 1])
  }

  ghost predicate Small(fields: seq<int>) {
    forall i :: 0 <= i < |fields| ==> -TWO30 < fields[i] < TWO30
  }

  /** One more field of the open segment. */
  lemma ScanField(s: Scan, before: seq<Byte>, fields: seq<int>, num: int, n: nat)
    requires s.Scan? && s.digits == [] && -TWO30 < num < TWO30
    requires ScanAll(s, before, n) == s.(fields := fields)
    ensures ScanAll(s, before + VlqBytes(num), n) == s.(fields := fields + [num])
  {
    ScanConcat(s, before, VlqBytes(num), n);
    ScanVlq(s.(fields := fields), num, n);
  }

  lemma SegmentLast(fields: seq<int>, init: seq<int>, last: int)
    requires fields == init + [last]
    ensures SegmentBytes(fields) == SegmentBytes(init) + VlqBytes(last)
  {
    assert fields[..|fields| - 1] == init;
  }

  lemma {:induction false} ScanSegment(s: Scan, fields: seq<int>, n: nat)
    requires s.Scan? && s.digits == [] && s.fields == [] && Small(fields)
    ensures ScanAll(s, SegmentBytes(fields), n) == s.(fields := fields)
  {
    if fields != [] {
      var init, last := fields[..|fields| - 1], fields[|fields| - 1];
      ScanSegment(s, init, n);
      SegmentLast(fields, init, last);
      ScanField(s, SegmentBytes(init), init, last, n);
    }
  }

  // ---------------------------------------------------------------- what a mappings string means

  /** The last position in a source that the entries mention; all zero if there is none. */
  function LastOrigin(es: seq<Entry<nat>>): Origin<nat> {
    if es == [] then Origin(0, 0, 0)
    else if es[|es| - 1].origin.Some? then es[|es| - 1].origin.value
    else LastOrigin(es[..|es| - 1])
  }

  /** The last column that the entries mention on a line, on which no earlier line ends. */
  function LastCol(es: seq<Entry<nat>>, line: nat): int {
    if es != [] && es[|es| - 1].line == line then es[|es| - 1].col else 0
  }

  /** A reader remembers the last positions that were mentioned. */
  ghost predicate Remembers(s: Scan) {
    s.Scan? ==>
      && s.col == LastCol(s.entries, s.line) && (s.entries != [] ==> s.entries[|s.entries| - 1].line <= s.line)
      && s.source == LastOrigin(s.entries).source
      && s.sourceLine == LastOrigin(s.entries).line && s.sourceCol == LastOrigin(s.entries).col
  }

  lemma FlushRemembers(s: Scan, n: nat)
    requires Remembers(s)
    ensures Remembers(Flush(s, n))
  {
    var t := Flush(s, n);
    if t.Scan? && s.fields != [] {
      assert t.entries[..|t.entries| - 1] == s.entries;
    }
  }

  lemma {:induction false} ScanRemembers(bytes: seq<Byte>, n: nat)
    ensures Remembers(ScanAll(START, bytes, n))
    decreases |bytes|
  {
    if bytes != [] {
      var init := bytes[..|bytes| - 1];
      ScanRemembers(init, n);
      FlushRemembers(ScanAll(START, init, n), n);
    }
  }

  /** The entry that a segment adds: its column is relative to the last one on the line, its source position to the last
      one mentioned anywhere. */
  function NextEntry(es: seq<Entry<nat>>, line: nat, fields: seq<int>): Entry<int>
    requires |fields| == 1 || |fields| == 4 || |fields| == 5
  {
    var o := LastOrigin(es);
    Entry(line, LastCol(es, line) + fields[0],
          if |fields| == 1 then None else Some(Origin(o.source + fields[1], o.line + fields[2], o.col + fields[3])))
  }

  /** Such an entry can stand in a map with `n` sources. */
  predicate IsEntry(e: Entry<int>, n: nat) {
    && InRange(e.col)
    && match e.origin
       case None => true
       case Some(o) => InRange(o.source) && o.source < n && InRange(o.line) && InRange(o.col)
  }

  function AsEntry(e: Entry<int>, n: nat): Entry<nat>
    requires IsEntry(e, n)
  {
    Entry(e.line, e.col, match e.origin
                         case None => None
                         case Some(o) => Some(Origin(o.source as nat, o.line, o.col)))
  }

  lemma FlushAdds(s: Scan, fields: seq<int>, n: nat)
    requires s.Scan? && s.fields == [] && s.digits == [] && Remembers(s)
    requires |fields| == 1 || |fields| == 4 || |fields| == 5
    ensures var t, e := Flush(s.(fields := fields), n), NextEntry(s.entries, s.line, fields);
            if IsEntry(e, n) then t.Scan? && t.entries == s.entries + [AsEntry(e, n)] else t.Malformed?
  {
  }

  /** A first segment. */
  lemma FirstSegment(fields: seq<int>, n: nat, e: Entry<int>)
    requires Small(fields) && (|fields| == 1 || |fields| == 4 || |fields| == 5) && e == NextEntry([], 0, fields)
    ensures Decode([], n) == Some([])
    ensures IsEntry(e, n) ==> Decode(SegmentBytes(fields), n) == Some([AsEntry(e, n)])
    ensures !IsEntry(e, n) ==> Decode(SegmentBytes(fields), n) == None
  {
    ScanSegment(START, fields, n);
    DecodeSegment(START, SegmentBytes(fields), fields, n, e);
    assert IsEntry(e, n) ==> [] + [AsEntry(e, n)] == [AsEntry(e, n)];
  }

  lemma DecodeSegment(s: Scan, bytes: seq<Byte>, fields: seq<int>, n: nat, e: Entry<int>)
    requires s.Scan? && s.fields == [] && s.digits == [] && Remembers(s)
    requires |fields| == 1 || |fields| == 4 || |fields| == 5
    requires ScanAll(START, bytes, n) == s.(fields := fields) && e == NextEntry(s.entries, s.line, fields)
    ensures IsEntry(e, n) ==> Decode(bytes, n) == Some(s.entries + [AsEntry(e, n)])
    ensures !IsEntry(e, n) ==> Decode(bytes, n) == None
  {
    FlushAdds(s, fields, n);
  }

  /** A further segment, behind a comma on the same line or behind a semicolon on the next one: the map means what it
      meant before, and one entry more.  The line is the number of semicolons before the segment. */
  lemma NextSegment(bytes: seq<Byte>, n: nat, sep: Byte, fields: seq<int>, es: seq<Entry<nat>>, e: Entry<int>)
    requires Decode(bytes, n) == Some(es) && (sep == 44 || sep == 59)
    requires Small(fields) && (|fields| == 1 || |fields| == 4 || |fields| == 5)
    requires e == NextEntry(es, CountByte(bytes + [sep], 59), fields)
    ensures IsEntry(e, n) ==> Decode(bytes + [sep] + SegmentBytes(fields), n) == Some(es + [AsEntry(e, n)])
    ensures !IsEntry(e, n) ==> Decode(bytes + [sep] + SegmentBytes(fields), n) == None
  {
    var s := ScanAll(START, bytes + [sep], n);
    AfterSeparator(bytes, n, sep, s);
    ScanConcat(START, bytes + [sep], SegmentBytes(fields), n);
    ScanSegment(s, fields, n);
    DecodeSegment(s, bytes + [sep] + SegmentBytes(fields), fields, n, e);
  }

  lemma AfterSeparator(bytes: seq<Byte>, n: nat, sep: Byte, s: Scan)
    requires Decode(bytes, n).Some? && (sep == 44 || sep == 59) && s == ScanAll(START, bytes + [sep], n)
    ensures s.Scan? && s.fields == [] && s.digits == [] && s.entries == Decode(bytes, n).value
    ensures s.line == CountByte(bytes + [sep], 59) && Remembers(s)
  {
    ScanOne(START, bytes, sep, n);
    ScanRemembers(bytes + [sep], n);
    ScanLine(bytes + [sep], n);
  }
}
