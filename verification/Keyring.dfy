/** Credentials in a keyring whose entries are limited in length: a value is cut into entries, all but the last of
    which end in a marker, and is read back over whatever earlier values have left behind. */
module Keyrings {
  import opened Integers
  import opened Sequences

  const CONTINUE_MARKER := "<MORE>"

  // ---------------------------------------------------------------- the keyring

  datatype Lookup = Password(value: string) | NoEntry | Failure

  /** The passwords under `vscode-cli-0`, `vscode-cli-1`, ...; the entries in `broken` cannot be accessed. */
  class Keyring {
    var passwords: map<nat, string>
    const broken: set<nat>

    constructor (passwords: map<nat, string>, broken: set<nat>)
      ensures this.passwords == passwords && this.broken == broken
    {
      this.passwords := passwords;
      this.broken := broken;
    }

    method GetPassword(i: nat) returns (r: Lookup)
      ensures r == LookUp(passwords, broken, i)
    {
      r := if i in broken then Failure else if i in passwords then Password(passwords[i]) else NoEntry;
    }

    method SetPassword(i: nat, value: string) returns (ok: bool)
      modifies this
      ensures ok == (i !in broken) && passwords == if ok then old(passwords)[i := value] else old(passwords)
    {
      ok := i !in broken;
      if ok {
        passwords := passwords[i := value];
      }
    }

    method DeletePassword(i: nat) returns (ok: bool)
      modifies this
      ensures ok == Deletable(old(passwords), broken, i)
      ensures passwords == if ok then old(passwords) - {i} else old(passwords)
    {
      ok := i !in broken && i in passwords;
      if ok {
        passwords := passwords - {i};
      }
    }
  }

  function LookUp(passwords: map<nat, string>, broken: set<nat>, i: nat): Lookup {
    if i in broken then Failure else if i in passwords then Password(passwords[i]) else NoEntry
  }

  predicate Deletable(passwords: map<nat, string>, broken: set<nat>, i: nat) {
    i !in broken && i in passwords
  }

  // ---------------------------------------------------------------- what is written

  predicate EndsWithMarker(s: string) {
    |CONTINUE_MARKER| <= |s| && s[|s| - |CONTINUE_MARKER|..] == CONTINUE_MARKER
  }

  function WithoutMarker(s: string): string
    requires EndsWithMarker(s)
  {
    s[..|s| - |CONTINUE_MARKER|]
  }

  function Chunks(sealed: string, step: nat): seq<string>
    requires step > 0
  {
    if sealed == "" then []
    else if step <= |sealed| then [sealed[..step] + CONTINUE_MARKER] + Chunks(sealed[step..], step)
    else [sealed]
  }

  function Overlay(passwords: map<nat, string>, chunks: seq<string>): map<nat, string> {
    if chunks == [] then passwords else Overlay(passwords, Init(chunks))[|chunks| - 1 := Last(chunks)]
  }

  lemma {:induction false} OverlayAt(passwords: map<nat, string>, chunks: seq<string>, k: nat)
    ensures LookUp(Overlay(passwords, chunks), {}, k)
         == if k < |chunks| then Password(chunks[k]) else LookUp(passwords, {}, k)
  {
    if chunks != [] {
      OverlayAt(passwords, Init(chunks), k);
    }
  }

  /** How many of the first `n` entries can be written before one cannot. */
  function Writable(broken: set<nat>, n: nat): (k: nat)
    ensures k <= n && (forall i :: 0 <= i < k ==> i !in broken) && (k < n ==> k in broken)
  {
    if n == 0 then 0
    else
      var k := Writable(broken, n - 1);
      if k == n - 1 && k !in broken then n else k
  }

  lemma {:induction false} WritableIs(broken: set<nat>, n: nat, k: nat)
    requires k < n && k in broken && Writable(broken, k) == k
    ensures Writable(broken, n) == k
    decreases n
  {
    if n > k + 1 {
      WritableIs(broken, n - 1, k);
    }
  }

  /** The first `n` entries hold consecutive parts of the value, as many characters of it as the limit leaves beside
      the marker, all but a last shorter part with the marker behind them; the other entries are as before. */
  ghost predicate Written(before: map<nat, string>, after: map<nat, string>, sealed: string, limit: nat, n: nat)
    requires |CONTINUE_MARKER| < limit
  {
    var size: nat := limit - |CONTINUE_MARKER|;
    && (forall k :: 0 <= k < n ==> k in after && IsPart(after[k], sealed, k * size, size))
    && (forall k: nat :: n <= k ==> LookUp(after, {}, k) == LookUp(before, {}, k))
  }

  ghost predicate IsPart(entry: string, sealed: string, start: nat, size: nat) {
    && start < |sealed|
    && (start + size <= |sealed| ==> entry == sealed[start..start + size] + "<MORE>")
    && (start + size > |sealed| ==> entry == sealed[start..])
  }

  // ---------------------------------------------------------------- what is read

  datatype Reading = Value(sealed: string) | Absent | Unreadable

  function Prepend(s: string, r: Reading): Reading {
    if r.Value? then Value(s + r.sealed) else r
  }

  function From(passwords: map<nat, string>, i: nat): set<nat> {
    set k | k in passwords && i <= k
  }

  function ReadFrom(passwords: map<nat, string>, broken: set<nat>, i: nat): Reading
    decreases |From(passwords, i)|
  {
    match LookUp(passwords, broken, i)
    case Failure => Unreadable
    case NoEntry => Absent
    case Password(p) =>
      OneLess(passwords, i);
      if EndsWithMarker(p) then Prepend(WithoutMarker(p), ReadFrom(passwords, broken, i + 1)) else Value(p)
  }

  lemma OneLess(passwords: map<nat, string>, i: nat)
    requires i in passwords
    ensures |From(passwords, i + 1)| < |From(passwords, i)|
  {
    assert From(passwords, i) == From(passwords, i + 1) + {i};
  }

  /** The entry after the last one that is looked at. */
  function LookedAt(passwords: map<nat, string>, broken: set<nat>, i: nat): (n: nat)
    ensures i < n
    ensures forall k :: i <= k < n - 1 ==> Deletable(passwords, broken, k)
    ensures Deletable(passwords, broken, n - 1) <==> ReadFrom(passwords, broken, i).Value?
    decreases |From(passwords, i)|
  {
    match LookUp(passwords, broken, i)
    case Password(p) =>
      OneLess(passwords, i);
      if EndsWithMarker(p) then LookedAt(passwords, broken, i + 1) else i + 1
    case _ => i + 1
  }

  // ---------------------------------------------------------------- the storage

  function Below(n: nat): (s: set<nat>)
    ensures forall i :: i in s <==> 0 <= i < n
  {
    if n == 0 then {} else Below(n - 1) + {n - 1}
  }

  /** The first of `n` entries that cannot be deleted; `n` if all can. */
  function FirstKept(passwords: map<nat, string>, broken: set<nat>, n: nat): (k: nat)
    ensures k <= n && (forall i :: 0 <= i < k ==> Deletable(passwords, broken, i))
    ensures k < n ==> !Deletable(passwords, broken, k)
  {
    if n == 0 then 0
    else
      var k := FirstKept(passwords, broken, n - 1);
      if k == n - 1 && Deletable(passwords, broken, k) then n else k
  }

  lemma FirstKeptIs(passwords: map<nat, string>, broken: set<nat>, n: nat, k: nat)
    requires k <= n && (forall i :: 0 <= i < k ==> Deletable(passwords, broken, i))
    requires k < n ==> !Deletable(passwords, broken, k)
    ensures FirstKept(passwords, broken, n) == k
    decreases n
  {
    if n > k {
      FirstKeptIs(passwords, broken, n - 1, k);
    } else if n > 0 {
      FirstKeptIs(passwords, broken, n - 1, n - 1);
    }
  }

  class KeyringStorage {
    const keyring: Keyring
    const limit: nat
    /** The handles made so far: the one at `i` is the handle of the entry `i`. */
    var entries: seq<nat>

    ghost predicate Valid()
      reads this
    {
      |CONTINUE_MARKER| < limit && forall i :: 0 <= i < |entries| ==> entries[i] == i
    }

    constructor (keyring: Keyring, limit: nat)
      requires |CONTINUE_MARKER| < limit
      ensures Valid() && this.keyring == keyring && this.limit == limit && entries == []
    {
      this.keyring := keyring;
      this.limit := limit;
      this.entries := [];
    }

    method GetNextEntry(i: nat) returns (e: nat)
      requires Valid() && i <= |entries|
      modifies this
      ensures Valid() && e == i && |entries| == Max(old(|entries|), i + 1)
    {
      if i == |entries| {
        entries := entries + [i];
      }
      e := entries[i];
    }

    method Read() returns (r: Reading)
      requires Valid()
      modifies this
      ensures Valid() && r == ReadFrom(keyring.passwords, keyring.broken, 0)
      ensures |entries| == Max(old(|entries|), LookedAt(keyring.passwords, keyring.broken, 0))
    {
      var str := "";
      var i := 0;
      while true
        invariant Valid() && i <= |entries| && |entries| == Max(old(|entries|), i)
        invariant ReadFrom(keyring.passwords, keyring.broken, 0)
               == Prepend(str, ReadFrom(keyring.passwords, keyring.broken, i))
        invariant LookedAt(keyring.passwords, keyring.broken, 0) == LookedAt(keyring.passwords, keyring.broken, i)
        decreases |From(keyring.passwords, i)|
      {
        var entry := GetNextEntry(i);
        var next := keyring.GetPassword(entry);
        match next {
          case NoEntry => return Absent;
          case Failure => return Unreadable;
          case Password(chunk) =>
            OneLess(keyring.passwords, i);
            if EndsWithMarker(chunk) {
              str := str + chunk[..|chunk| - |CONTINUE_MARKER|];
            } else {
              str := str + chunk;
              return Value(str);
            }
        }
        i := i + 1;
      }
    }

    /** The part of `store` for the chunk at `i`. */
    method StoreChunk(sealed: string, i: nat, ghost k: nat) returns (ok: bool)
      requires Valid() && i < |sealed| && k <= |entries| && i == Offset(k, StepSize())
      modifies this, keyring
      ensures Valid() && |entries| == Max(old(|entries|), k + 1) && ok == (k !in keyring.broken)
      ensures keyring.passwords ==
                if ok then old(keyring.passwords)[k := FirstOf(sealed[i..], StepSize())] else old(keyring.passwords)
    {
      OffsetDivides(k, StepSize());
      var entry := GetNextEntry(i / StepSize());
      var cutoff := i + StepSize();
      var part := if cutoff <= |sealed| then sealed[i..cutoff] + CONTINUE_MARKER else sealed[i..];
      assert cutoff <= |sealed| ==> sealed[i..][..StepSize()] == sealed[i..cutoff];
      ok := keyring.SetPassword(entry, part);
    }

    function StepSize(): (n: nat)
      requires |CONTINUE_MARKER| < limit
      ensures n > 0
    {
      limit - |CONTINUE_MARKER|
    }

    /** `store`: writes the first `n` entries; fails at the first one that is refused. */
    method Store(sealed: string) returns (ok: bool, ghost n: nat)
      requires Valid()
      modifies this, keyring
      ensures Valid() && |entries| == Max(old(|entries|), if ok then n else n + 1)
      ensures Written(old(keyring.passwords), keyring.passwords, sealed, limit, n)
      ensures n * (limit - |CONTINUE_MARKER|) < |sealed| <==> !ok
      ensures (forall k :: 0 <= k < n ==> k !in keyring.broken) && (!ok ==> n in keyring.broken)
      ensures forall k :: 0 <= k < n ==>
                && 0 < |keyring.passwords[k]| <= limit
                && (k * (limit - |CONTINUE_MARKER|) + (limit - |CONTINUE_MARKER|) <= |sealed| ==>
                      |keyring.passwords[k]| == limit)
      ensures ok ==> (ReadFrom(keyring.passwords, keyring.broken, 0) == Value(sealed) <==>
                        Completes(LastCharacters(sealed, limit),
                                  ReadFrom(old(keyring.passwords), keyring.broken, n)))
    {
      ok, n := StoreChunks(sealed);
      StoredEntries(old(keyring.passwords), keyring.passwords, sealed, limit, n);
      if ok {
        StoredIsRead(old(keyring.passwords), keyring.passwords, keyring.broken, sealed, limit, n);
      }
    }

    /** The loop of `store`. */
    method StoreChunks(sealed: string) returns (ok: bool, ghost n: nat)
      requires Valid()
      modifies this, keyring
      ensures Valid() && |entries| == Max(old(|entries|), if ok then n else n + 1)
      ensures var chunks := Chunks(sealed, StepSize());
              && n == Writable(keyring.broken, |chunks|) && ok == (n == |chunks|)
              && keyring.passwords == Overlay(old(keyring.passwords), chunks[..n])
    {
      ghost var chunks := Chunks(sealed, StepSize());
      n := 0;
      var i := 0;
      while i < |sealed|
        invariant Valid() && n <= |chunks| && i == Offset(n, StepSize()) && n <= |entries|
        invariant chunks[n..] == ChunksFrom(sealed, i, StepSize())
        invariant Writable(keyring.broken, n) == n
        invariant keyring.passwords == Overlay(old(keyring.passwords), chunks[..n])
        invariant |entries| == Max(old(|entries|), n)
        decreases |sealed| - i
      {
        ChunksFromStep(sealed, i, StepSize());
        assert chunks[n] == chunks[n..][0] && chunks[n + 1..] == chunks[n..][1..];
        ok := StoreChunk(sealed, i, n);
        if !ok {
          WritableIs(keyring.broken, |chunks|, n);
          return;
        }
        OverlayNext(old(keyring.passwords), chunks, n);
        n := n + 1;
        i := i + StepSize();
      }
      ok := true;
    }

    method Clear() returns (ok: bool)
      requires Valid()
      modifies this, keyring
      ensures Valid()
      ensures var n := Max(old(|entries|), LookedAt(old(keyring.passwords), keyring.broken, 0));
              var k := FirstKept(old(keyring.passwords), keyring.broken, n);
              && ok == (k == n)
              && keyring.passwords == old(keyring.passwords) - Below(k)
              && |entries| == if ok then 0 else n
    {
      var _ := Read();
      ghost var n := |entries|;
      ghost var before := keyring.passwords;
      var k := 0;
      while k < |entries|
        invariant k <= |entries| == n && Valid()
        invariant keyring.passwords == before - Below(k)
        invariant forall i :: 0 <= i < k ==> Deletable(before, keyring.broken, i)
      {
        ok := keyring.DeletePassword(entries[k]);
        if !ok {
          assert !Deletable(before, keyring.broken, k);
          FirstKeptIs(before, keyring.broken, n, k);
          return;
        }
        k := k + 1;
      }
      entries := [];
      ok := true;
      FirstKeptIs(before, keyring.broken, n, n);
    }
  }

  /** Where the `k`-th chunk starts. */
  function Offset(k: nat, step: nat): nat {
    if k == 0 then 0 else Offset(k - 1, step) + step
  }

  lemma {:induction false} OffsetDivides(k: nat, step: nat)
    requires step > 0
    ensures Offset(k, step) / step == k && Offset(k, step) % step == 0
  {
    if k > 0 {
      OffsetDivides(k - 1, step);
      var i := Offset(k - 1, step);
      assert i == step * (i / step) + i % step == step * (k - 1);
      assert step * k == step * (k - 1) + step;
      DivideUnique(i + step, k, 0, step);
    }
  }

  lemma DivideUnique(x: nat, k: nat, r: nat, step: nat)
    requires r < step && x == step * k + r
    ensures x / step == k && x % step == r
  {
    var d := x / step - k;
    assert step * d == step * (x / step) - step * k == r - x % step;
  }

  lemma SmallRemainder(n: nat, step: nat)
    requires n < step
    ensures n % step == n
  {
    DivideUnique(n, 0, n, step);
  }

  lemma OneStepLess(n: nat, step: nat)
    requires 0 < step <= n
    ensures (n - step) % step == n % step
  {
    var k := n / step;
    assert step * (k - 1) == step * k - step;
    DivideUnique(n - step, k - 1, n % step, step);
  }

  function FirstOf(sealed: string, step: nat): string
    requires sealed != "" && step > 0
  {
    if step <= |sealed| then sealed[..step] + CONTINUE_MARKER else sealed
  }

  function ChunksFrom(sealed: string, i: nat, step: nat): seq<string>
    requires step > 0
  {
    if i < |sealed| then Chunks(sealed[i..], step) else []
  }

  lemma ChunksFromStep(sealed: string, i: nat, step: nat)
    requires i < |sealed| && step > 0
    ensures ChunksFrom(sealed, i, step) == [FirstOf(sealed[i..], step)] + ChunksFrom(sealed, i + step, step)
  {
    if i + step <= |sealed| {
      assert sealed[i..][step..] == sealed[i + step..];
    }
  }

  lemma OverlayNext(passwords: map<nat, string>, chunks: seq<string>, k: nat)
    requires k < |chunks|
    ensures Overlay(passwords, chunks[..k + 1]) == Overlay(passwords, chunks[..k])[k := chunks[k]]
  {
    assert Init(chunks[..k + 1]) == chunks[..k];
  }

  lemma {:induction false} OffsetIs(k: nat, step: nat)
    ensures Offset(k, step) == k * step
  {
    if k > 0 {
      OffsetIs(k - 1, step);
      assert k * step == (k - 1) * step + step;
    }
  }

  lemma {:induction false} OffsetNext(k: nat, step: nat)
    requires k > 0
    ensures Offset(k, step) == step + Offset(k - 1, step)
  {
  }

  /** The chunks are consecutive parts, and all of them together reach the end of the value. */
  lemma {:induction false} ChunkAt(sealed: string, step: nat, k: nat)
    requires step > 0 && k < |Chunks(sealed, step)|
    ensures IsPart(Chunks(sealed, step)[k], sealed, Offset(k, step), step)
    decreases k
  {
    if k > 0 {
      var more := sealed[step..];
      ChunkAt(more, step, k - 1);
      var i := Offset(k - 1, step);
      OffsetNext(k, step);
      assert more[i..] == sealed[i + step..];
      assert i + step <= |more| ==> more[i..i + step] == sealed[i + step..i + step + step];
    }
  }

  lemma {:induction false} ChunkCount(sealed: string, step: nat)
    requires step > 0
    ensures |sealed| <= Offset(|Chunks(sealed, step)|, step)
    decreases |sealed|
  {
    if step <= |sealed| {
      ChunkCount(sealed[step..], step);
      OffsetNext(|Chunks(sealed, step)|, step);
    } else if sealed != "" {
      assert Offset(1, step) == Offset(0, step) + step;
    }
  }

  /** What the loop of `store` leaves, entry by entry. */
  lemma StoredEntries(before: map<nat, string>, after: map<nat, string>, sealed: string, limit: nat, n: nat)
    requires |CONTINUE_MARKER| < limit && n <= |Chunks(sealed, limit - |CONTINUE_MARKER|)|
    requires after == Overlay(before, Chunks(sealed, limit - |CONTINUE_MARKER|)[..n])
    ensures Written(before, after, sealed, limit, n)
    ensures forall k :: 0 <= k < n ==>
              && 0 < |after[k]| <= limit
              && (k * (limit - |CONTINUE_MARKER|) + (limit - |CONTINUE_MARKER|) <= |sealed| ==> |after[k]| == limit)
    ensures n * (limit - |CONTINUE_MARKER|) < |sealed| <==> n < |Chunks(sealed, limit - |CONTINUE_MARKER|)|
  {
    var step: nat := limit - |CONTINUE_MARKER|;
    var chunks := Chunks(sealed, step);
    forall k: nat ensures LookUp(after, {}, k) == if k < n then Password(chunks[k]) else LookUp(before, {}, k) {
      OverlayAt(before, chunks[..n], k);
    }
    forall k | 0 <= k < n
      ensures k in after && IsPart(after[k], sealed, k * step, step)
      ensures 0 < |after[k]| <= limit && (k * step + step <= |sealed| ==> |after[k]| == limit)
    {
      assert LookUp(after, {}, k) == Password(chunks[k]);
      ChunkAt(sealed, step, k);
      OffsetIs(k, step);
    }
    OffsetIs(n, step);
    if n < |chunks| {
      ChunkAt(sealed, step, n);
    } else {
      ChunkCount(sealed, step);
    }
  }

  // ---------------------------------------------------------------- results

  /** What is left of a value after its full chunks. */
  function LastPart(sealed: string, step: nat): string
    requires step > 0
  {
    if step <= |sealed| then LastPart(sealed[step..], step) else sealed
  }

  lemma {:induction false} LastPartIs(sealed: string, step: nat)
    requires step > 0
    ensures |LastPart(sealed, step)| == |sealed| % step
    ensures LastPart(sealed, step) == sealed[|sealed| - |LastPart(sealed, step)|..]
    decreases |sealed|
  {
    if step <= |sealed| {
      LastPartIs(sealed[step..], step);
      OneStepLess(|sealed|, step);
      DropTwice(sealed, step, |sealed| - |LastPart(sealed, step)|);
    } else {
      SmallRemainder(|sealed|, step);
    }
  }

  lemma DropTwice(s: string, i: nat, k: nat)
    requires i <= k <= |s|
    ensures s[i..][k - i..] == s[k..]
  {
  }

  /** An entry ends in the marker when it is some text and then these six characters. */
  lemma MarkerMeans(s: string)
    ensures EndsWithMarker(s) <==> exists p :: s == p + "<MORE>"
    ensures EndsWithMarker(s) ==> s == WithoutMarker(s) + "<MORE>"
  {
    if EndsWithMarker(s) {
      assert s == s[..|s| - 6] + s[|s| - 6..];
    }
    if p :| s == p + "<MORE>" {
      MarkerSuffix(p);
    }
  }

  lemma {:induction false} ReadParts(passwords: map<nat, string>, broken: set<nat>, parts: seq<string>)
    requires forall i :: 0 <= i < |parts| ==> i in passwords && i !in broken && passwords[i] == parts[i] + "<MORE>"
    ensures ReadFrom(passwords, broken, 0) == Prepend(Flatten(parts), ReadFrom(passwords, broken, |parts|))
    decreases |parts|
  {
    if parts == [] {
      PrependNothing(ReadFrom(passwords, broken, 0));
    } else {
      var init, k := Init(parts), |parts| - 1;
      ReadParts(passwords, broken, init);
      MarkerSuffix(parts[k]);
      PrependTwice(Flatten(init), parts[k], ReadFrom(passwords, broken, k + 1));
    }
  }

  lemma PrependNothing(r: Reading)
    ensures Prepend("", r) == r
  {
    assert r.Value? ==> "" + r.sealed == r.sealed;
  }

  lemma PrependTwice(s: string, t: string, r: Reading)
    ensures Prepend(s, Prepend(t, r)) == Prepend(s + t, r)
  {
    assert r.Value? ==> s + (t + r.sealed) == s + t + r.sealed;
  }

  /** What is read is decided by the first entry that does not go on: if it is refused the read fails, if it is missing
      there is no value, and otherwise the value is all parts up to there, without their markers. */
  lemma ReadIs(passwords: map<nat, string>, broken: set<nat>, parts: seq<string>)
    requires forall i :: 0 <= i < |parts| ==> i in passwords && i !in broken && passwords[i] == parts[i] + "<MORE>"
    ensures var n, r := |parts|, ReadFrom(passwords, broken, 0);
            && (n in broken ==> r == Unreadable)
            && (n !in broken && n !in passwords ==> r == Absent)
            && (n !in broken && n in passwords && (forall p :: passwords[n] != p + "<MORE>") ==>
                  r == Value(Flatten(parts) + passwords[n]))
  {
    var n := |parts|;
    ReadParts(passwords, broken, parts);
    if n in passwords {
      MarkerMeans(passwords[n]);
    }
  }

  /** Reading the chunks of a value when reading on after them gives `rest`. */
  function ReadChunks(chunks: seq<string>, rest: Reading): Reading {
    if chunks == [] then rest
    else if EndsWithMarker(chunks[0]) then Prepend(WithoutMarker(chunks[0]), ReadChunks(chunks[1..], rest))
    else Value(chunks[0])
  }

  /** Reading after writing reads the chunks, and then perhaps what was there before. */
  lemma {:induction false} ReadWritten(before: map<nat, string>, broken: set<nat>, chunks: seq<string>, k: nat)
    requires k <= |chunks| && forall i :: 0 <= i < |chunks| ==> i !in broken
    ensures ReadFrom(Overlay(before, chunks), broken, k) == ReadChunks(chunks[k..], ReadFrom(before, broken, |chunks|))
    decreases |chunks| - k
  {
    var after := Overlay(before, chunks);
    if k == |chunks| {
      forall i: nat | k <= i ensures LookUp(before, {}, i) == LookUp(after, {}, i) {
        OverlayAt(before, chunks, i);
      }
      ReadUnchanged(before, after, broken, k);
    } else {
      OverlayAt(before, chunks, k);
      OneLess(after, k);
      ReadWritten(before, broken, chunks, k + 1);
      assert chunks[k..][0] == chunks[k] && chunks[k..][1..] == chunks[k + 1..];
    }
  }

  lemma {:induction false} ReadUnchanged(p: map<nat, string>, q: map<nat, string>, broken: set<nat>, i: nat)
    requires forall k :: i <= k ==> LookUp(p, {}, k) == LookUp(q, {}, k)
    ensures ReadFrom(p, broken, i) == ReadFrom(q, broken, i)
    decreases |From(p, i)|
  {
    assert LookUp(p, {}, i) == LookUp(q, {}, i);
    if i in p {
      OneLess(p, i);
      OneLess(q, i);
      ReadUnchanged(p, q, broken, i + 1);
    }
  }

  /** Whether a last part is read back, when reading on after the chunks gives `rest`. */
  predicate Completes(last: string, rest: Reading) {
    if last == "" then rest == Value("")
    else EndsWithMarker(last) ==> rest == Value(CONTINUE_MARKER)
  }

  lemma MarkerSuffix(s: string)
    ensures EndsWithMarker(s + CONTINUE_MARKER) && WithoutMarker(s + CONTINUE_MARKER) == s
  {
  }

  lemma PrependIsValue(s: string, r: Reading, t: string)
    ensures Prepend(s, r) == Value(s + t) <==> r == Value(t)
  {
    if r.Value? && s + r.sealed == s + t {
      assert (s + r.sealed)[|s|..] == r.sealed && (s + t)[|s|..] == t;
    }
  }

  lemma {:induction false} ChunksRoundTrip(sealed: string, step: nat, rest: Reading)
    requires step > 0
    ensures ReadChunks(Chunks(sealed, step), rest) == Value(sealed) <==> Completes(LastPart(sealed, step), rest)
    decreases |sealed|
  {
    if step <= |sealed| {
      var first, more := sealed[..step], sealed[step..];
      ChunksRoundTrip(more, step, rest);
      MarkerSuffix(first);
      PrependIsValue(first, ReadChunks(Chunks(more, step), rest), more);
      assert first + more == sealed;
      assert ([FirstOf(sealed, step)] + Chunks(more, step))[1..] == Chunks(more, step);
    } else if sealed != "" && EndsWithMarker(sealed) {
      PrependIsValue(WithoutMarker(sealed), rest, CONTINUE_MARKER);
      assert WithoutMarker(sealed) + CONTINUE_MARKER == sealed;
      assert [sealed][1..] == [];
    }
  }

  /** A value that is stored over other entries is read back. */
  predicate RoundTrips(before: map<nat, string>, broken: set<nat>, sealed: string, step: nat)
    requires step > 0
  {
    ReadFrom(Overlay(before, Chunks(sealed, step)), broken, 0) == Value(sealed)
  }

  /** What is stored is read back exactly when its last part is neither empty nor ends in the marker, or when the
      entries left behind after it happen to complete it. */
  lemma {:induction false} StoreThenRead(before: map<nat, string>, broken: set<nat>, sealed: string, step: nat)
    requires step > 0 && forall i :: 0 <= i < |Chunks(sealed, step)| ==> i !in broken
    ensures RoundTrips(before, broken, sealed, step)
       <==> Completes(LastPart(sealed, step), ReadFrom(before, broken, |Chunks(sealed, step)|))
  {
    var chunks := Chunks(sealed, step);
    ReadWritten(before, broken, chunks, 0);
    assert chunks[0..] == chunks;
    ChunksRoundTrip(sealed, step, ReadFrom(before, broken, |chunks|));
  }

  /** As many of the last characters of a value as its length leaves when divided by what fits into an entry beside the
      marker. */
  function LastCharacters(sealed: string, limit: nat): string
    requires |CONTINUE_MARKER| < limit
  {
    var size: nat := limit - |CONTINUE_MARKER|;
    SmallerRemainder(|sealed|, size);
    sealed[|sealed| - |sealed| % size..]
  }

  lemma SmallerRemainder(n: nat, size: nat)
    requires size > 0
    ensures 0 <= n % size <= n
  {
    LastPartIs(seq(n, _ => 'x'), size);
  }

  /** The same for what the loop of `store` has written. */
  lemma StoredIsRead(before: map<nat, string>, after: map<nat, string>, broken: set<nat>, sealed: string, limit: nat,
                     n: nat)
    requires |CONTINUE_MARKER| < limit && n == |Chunks(sealed, limit - |CONTINUE_MARKER|)|
    requires after == Overlay(before, Chunks(sealed, limit - |CONTINUE_MARKER|)[..n])
    requires forall k :: 0 <= k < n ==> k !in broken
    ensures ReadFrom(after, broken, 0) == Value(sealed)
       <==> Completes(LastCharacters(sealed, limit), ReadFrom(before, broken, n))
  {
    var step: nat := limit - |CONTINUE_MARKER|;
    var chunks := Chunks(sealed, step);
    assert chunks[..n] == chunks;
    StoreThenRead(before, broken, sealed, step);
    LastPartIs(sealed, step);
  }

  /** Nothing is left over after the full chunks, or what is left over ends in the marker. */
  predicate EndsOpen(sealed: string, step: nat)
    requires step > 0
  {
    LastPart(sealed, step) == "" || EndsWithMarker(LastPart(sealed, step))
  }

  /** Any other value is read back whatever was there before. */
  lemma {:induction false} StoreThenReadOverAnything(before: map<nat, string>, broken: set<nat>,
                                                     sealed: string, step: nat)
    requires step > 0 && forall i :: 0 <= i < |Chunks(sealed, step)| ==> i !in broken
    requires !EndsOpen(sealed, step)
    ensures RoundTrips(before, broken, sealed, step)
  {
    StoreThenRead(before, broken, sealed, step);
  }

  /** A value that ends open is not read back if nothing was there before. */
  lemma {:induction false} OpenEndIsNotReadBack(before: map<nat, string>, broken: set<nat>, sealed: string, step: nat)
    requires step > 0 && forall i :: 0 <= i < |Chunks(sealed, step)| ==> i !in broken
    requires EndsOpen(sealed, step) && before == map[]
    ensures !RoundTrips(before, broken, sealed, step)
  {
    StoreThenRead(before, broken, sealed, step);
  }

  /** A value whose last chunk is full is not found at all when nothing was left behind after it. */
  lemma {:induction false} FullLastChunkIsLost(sealed: string, step: nat)
    requires step > 0 && LastPart(sealed, step) == ""
    ensures ReadFrom(Overlay(map[], Chunks(sealed, step)), {}, 0) == Absent
  {
    var chunks := Chunks(sealed, step);
    ReadWritten(map[], {}, chunks, 0);
    assert chunks[0..] == chunks;
    FullChunks(sealed, step);
  }

  lemma {:induction false} FullChunks(sealed: string, step: nat)
    requires step > 0 && LastPart(sealed, step) == ""
    ensures ReadChunks(Chunks(sealed, step), Absent) == Absent
    decreases |sealed|
  {
    if step <= |sealed| {
      FullChunks(sealed[step..], step);
      MarkerSuffix(sealed[..step]);
    }
  }

  /** Clearing after a restart succeeds exactly when a value can be read, and then none can be read any more; an empty
      keyring makes it fail. */
  lemma ClearAfterRestart(before: map<nat, string>, broken: set<nat>)
    ensures var n := LookedAt(before, broken, 0);
            && (FirstKept(before, broken, n) == n <==> ReadFrom(before, broken, 0).Value?)
            && (ReadFrom(before, broken, 0).Value? ==> ReadFrom(before - Below(n), broken, 0) == Absent)
  {
    var n := LookedAt(before, broken, 0);
    var k := FirstKept(before, broken, n);
    assert k == n ==> Deletable(before, broken, n - 1);
    assert k < n - 1 ==> Deletable(before, broken, k);
    assert k == n ==> Deletable(before, broken, 0);
  }
}
