/** Base64 variable-length quantities of the source map format (ECMA-426), as the builder writes and reads them
    with 32-bit integer operations. */
module Vlq {
  import opened Integers

  const TWO30 := 0x4000_0000
  const TWO31 := 0x8000_0000

  // ---------------------------------------------------------------- 32-bit operations

  /** Reduction of an integer to the signed 32-bit range, as the bitwise operators do to their operands. */
  function ToInt32(x: int): int {
    (x + TWO31) % TWO32 - TWO31
  }

  function Pow2(n: nat): nat {
    if n == 0 then 1 else 2 * Pow2(n - 1)
  }

  /** `x << n`; only the low five bits of the distance count. */
  function ShiftLeft(x: int, n: nat): int {
    ToInt32(x * Pow2(n % 32))
  }

  /** `x >> n`, keeping the sign. */
  function ShiftRight(x: int, n: nat): int
    requires n < 32
  {
    Pow2Positive(n);
    ToInt32(x) / Pow2(n)
  }

  lemma Pow2Positive(n: nat)
    ensures Pow2(n) > 0
  {
  }

  lemma ToInt32Exact(x: int)
    ensures ToInt32(x) == x <==> -TWO31 <= x < TWO31
  {
  }

  // ---------------------------------------------------------------- the alphabet

  /** Section 4 of RFC 4648. */
  function IntegerToChar(d: nat): Byte
    requires d < 64
  {
    if d < 26 then 65 + d
    else if d < 52 then 97 + (d - 26)
    else if d < 62 then 48 + (d - 52)
    else if d == 62 then 43
    else 47
  }

  /** The table of the reader: 255 marks bytes outside the alphabet, and `=` has got the entry 64. */
  function CharToInteger(b: Byte): nat {
    if 65 <= b <= 90 then b - 65
    else if 97 <= b <= 122 then b - 97 + 26
    else if 48 <= b <= 57 then b - 48 + 52
    else if b == 43 then 62
    else if b == 47 then 63
    else if b == 61 then 64
    else 255
  }

  lemma AlphabetRoundTrip(d: nat)
    requires d < 64
    ensures CharToInteger(IntegerToChar(d)) == d && IntegerToChar(d) != 59 && IntegerToChar(d) != 44
  {
  }

  const UPPERCASE := "ABCDEFGHIJKLMNOPQRSTUVWXYZ"
  const LOWERCASE := "abcdefghijklmnopqrstuvwxyz"
  const DECIMAL := "0123456789"

  /** The digits are the letters of the alphabet in this order: upper case, lower case, decimal digits, plus, slash. */
  lemma AlphabetIs(d: nat)
    requires d < 64
    ensures d < 26 ==> IntegerToChar(d) == UPPERCASE[d] as int
    ensures 26 <= d < 52 ==> IntegerToChar(d) == LOWERCASE[d - 26] as int
    ensures 52 <= d < 62 ==> IntegerToChar(d) == DECIMAL[d - 52] as int
    ensures d == 62 ==> IntegerToChar(d) == '+' as int
    ensures d == 63 ==> IntegerToChar(d) == '/' as int
  {
  }

  // ---------------------------------------------------------------- values of digit lists

  function Pow32(n: nat): nat {
    if n == 0 then 1 else 32 * Pow32(n - 1)
  }

  /** The number whose base-32 digits, lowest first, are the low five bits of `ds`. */
  function Raw(ds: seq<nat>): nat {
    if ds == [] then 0 else Raw(ds[..|ds| - 1]) + (ds[|ds| - 1] % 32) * Pow32(|ds| - 1)
  }

  /** The lowest bit is the sign. */
  function Signed(raw: nat): int {
    if raw % 2 == 1 then -(raw / 2) else raw / 2
  }

  /** All digits but the last say that more follow. */
  predicate Complete(ds: seq<nat>) {
    |ds| >= 1 && ds[|ds| - 1] < 32 && forall i :: 0 <= i < |ds| - 1 ==> 32 <= ds[i] < 64
  }

  lemma {:induction false} RawFront(d: nat, ds: seq<nat>)
    ensures Raw([d] + ds) == d % 32 + 32 * Raw(ds)
  {
    if ds == [] {
      assert [d] + ds == [d] && [d][..0] == [];
      assert Pow32(0) == 1;
    } else {
      var init, last := ds[..|ds| - 1], ds[|ds| - 1];
      assert ([d] + ds)[..|ds|] == [d] + init;
      RawFront(d, init);
      assert Pow32(|ds|) == 32 * Pow32(|ds| - 1);
      Scale(last % 32, Pow32(|ds| - 1));
    }
  }

  lemma Scale(a: int, p: int)
    ensures a * (32 * p) == 32 * (a * p)
  {
  }

  // ---------------------------------------------------------------- writing

  /** Base-32 digits of `n`, lowest first; every digit but the last has 32 added. */
  function Digits(n: nat): seq<nat> {
    if n / 32 > 0 then [n % 32 + 32] + Digits(n / 32) else [n % 32]
  }

  lemma {:induction false} DigitsValue(n: nat)
    ensures Complete(Digits(n)) && Raw(Digits(n)) == n
  {
    if n / 32 > 0 {
      DigitsValue(n / 32);
      RawFront(n % 32 + 32, Digits(n / 32));
      CompleteFront(n % 32 + 32, Digits(n / 32));
    } else {
      RawOne(n % 32);
    }
  }

  lemma CompleteFront(d: nat, ds: seq<nat>)
    requires 32 <= d < 64 && Complete(ds)
    ensures Complete([d] + ds)
  {
    assert forall i :: 1 <= i < |[d] + ds| ==> ([d] + ds)[i] == ds[i - 1];
  }

  lemma RawOne(d: nat)
    requires d < 32
    ensures Raw([d]) == d
  {
    RawLast([], d);
    assert [] + [d] == [d] && Pow32(0) == 1;
  }

  /** The integer whose digits are written for `num`, with the overflow of the shift. */
  function Folded(num: int): int {
    if num < 0 then ShiftLeft(-num, 1) + 1 else ShiftLeft(num, 1)
  }

  /** The digits that the writing loop puts out for an integer; for a negative one the loop stops after one. */
  function Written(n: int): seq<nat> {
    if n < 0 then [n % 32] else Digits(n)
  }

  function Encoded(num: int): (ds: seq<nat>)
    ensures forall i :: 0 <= i < |ds| ==> ds[i] < 64
  {
    WrittenSmall(Folded(num));
    Written(Folded(num))
  }

  lemma {:induction false} DigitsSmall(n: nat)
    ensures forall i :: 0 <= i < |Digits(n)| ==> Digits(n)[i] < 64
  {
    if n / 32 > 0 {
      DigitsSmall(n / 32);
    }
  }

  lemma WrittenSmall(n: int)
    ensures forall i :: 0 <= i < |Written(n)| ==> Written(n)[i] < 64
  {
    if n >= 0 {
      DigitsSmall(n);
    }
  }

  /** One turn of the writing loop. */
  lemma WrittenStep(n: int)
    requires -TWO31 <= n < TWO31
    ensures var m := ShiftRight(n, 5);
            && m == n / 32
            && Written(n) == if m > 0 then [n % 32 + 32] + Written(m) else [n % 32]
  {
    assert Pow2(5) == 2 * Pow2(4) == 4 * Pow2(3) == 8 * Pow2(2) == 16 * Pow2(1) == 32 * Pow2(0) == 32;
    ToInt32Exact(n);
  }

  function Chars(ds: seq<nat>): seq<Byte>
    requires forall i :: 0 <= i < |ds| ==> ds[i] < 64
  {
    seq(|ds|, i requires 0 <= i < |ds| => IntegerToChar(ds[i]))
  }

  /** The bytes that the writing loop puts out for an integer. */
  function WrittenBytes(n: int): seq<Byte> {
    WrittenSmall(n);
    Chars(Written(n))
  }

  /** The bytes `addVLQ` writes. */
  function VlqBytes(num: int): seq<Byte> {
    Chars(Encoded(num))
  }

  lemma CharsFirst(d: nat, ds: seq<nat>)
    requires d < 64 && forall i :: 0 <= i < |ds| ==> ds[i] < 64
    ensures Chars([d] + ds) == [IntegerToChar(d)] + Chars(ds)
  {
  }

  /** One round of the loop, with what was written before it. */
  lemma WrittenBytesStep(n: int)
    requires -TWO31 <= n < TWO31
    ensures var m := ShiftRight(n, 5);
            && m == n / 32
            && forall s: seq<Byte> ::
                 s + WrittenBytes(n) ==
                   if m > 0 then s + [IntegerToChar(n % 32 + 32)] + WrittenBytes(m)
                   else s + [IntegerToChar(n % 32)] + []
  {
    WrittenStep(n);
    var m := n / 32;
    WrittenSmall(m);
    var d := if m > 0 then n % 32 + 32 else n % 32;
    CharsFirst(d, if m > 0 then Written(m) else []);
    assert m <= 0 ==> [d] + [] == [d];
    assert m > 0 ==> WrittenBytes(n) == [IntegerToChar(d)] + WrittenBytes(m);
    assert m <= 0 ==> WrittenBytes(n) == [IntegerToChar(d)];
  }

  // ---------------------------------------------------------------- round trip

  lemma FoldedExact(num: int)
    requires -TWO30 < num < TWO30
    ensures Folded(num) == if num < 0 then 2 * -num + 1 else 2 * num
    ensures 0 <= Folded(num) < TWO31 && Signed(Folded(num)) == num
  {
    assert Pow2(1) == 2 by { assert Pow2(0) == 1; }
    ToInt32Exact(2 * num);
    ToInt32Exact(2 * -num);
  }

  lemma {:induction false} FoldedRange(num: int)
    ensures -TWO31 <= Folded(num) < TWO31
  {
    assert Pow2(1) == 2 by { assert Pow2(0) == 1; }
    var x := if num < 0 then -num else num;
    assert ToInt32(2 * x) % 2 == 0 by {
      assert (2 * x + TWO31) % TWO32 % 2 == 0;
    }
  }

  /** The digits written for `num` stand for `num` exactly when its magnitude is below 2^30. */
  lemma VlqRoundTrip(num: int)
    ensures Complete(Encoded(num))
    ensures Signed(Raw(Encoded(num))) == num <==> -TWO30 < num < TWO30
    ensures Raw(Encoded(num)) < TWO31
  {
    FoldedRange(num);
    var n := Folded(num);
    if n >= 0 {
      DigitsValue(n);
      if -TWO30 < num < TWO30 {
        FoldedExact(num);
      }
    } else {
      RawOne(n % 32);
      if -TWO30 < num < TWO30 {
        FoldedExact(num);
      }
    }
  }

  /** The low bit of the number that is written is the sign, and its digits are written lowest first: one digit if it is
      below 32; two if it is below 1024, of which the first says that another one follows. */
  lemma ShortVlq(num: int, v: nat)
    requires -512 < num < 512 && v == (if num < 0 then 2 * -num + 1 else 2 * num)
    ensures v < 32 ==> VlqBytes(num) == [IntegerToChar(v)]
    ensures v >= 32 ==> VlqBytes(num) == [IntegerToChar(32 + v % 32), IntegerToChar(v / 32)]
  {
    FoldedExact(num);
    if v >= 32 {
      assert Digits(v / 32) == [v / 32] && Digits(v) == [v % 32 + 32] + [v / 32];
    }
  }

  // ---------------------------------------------------------------- reading

  lemma {:induction false} Pow32Pow2(n: nat)
    ensures Pow32(n) == Pow2(5 * n)
  {
    if n > 0 {
      Pow32Pow2(n - 1);
      assert Pow2(5 * n) == 2 * Pow2(5 * n - 1) == 4 * Pow2(5 * n - 2) == 8 * Pow2(5 * n - 3)
                         == 16 * Pow2(5 * n - 4) == 32 * Pow2(5 * n - 5);
    }
  }

  lemma {:induction false} Pow32Large(n: nat)
    requires n >= 7
    ensures Pow32(n) >= TWO32
  {
    if n == 7 {
      assert Pow32(7) == 32 * Pow32(6) == 1024 * Pow32(5) == 32768 * Pow32(4) == 1048576 * Pow32(3)
                      == 33554432 * Pow32(2) == 1073741824 * Pow32(1) == 34359738368 * Pow32(0);
    } else {
      Pow32Large(n - 1);
    }
  }

  lemma {:induction false} ShiftFits(x: nat, k: nat)
    requires x > 0 && x * Pow32(k) < TWO31
    ensures ShiftLeft(x, 5 * k) == x * Pow32(k)
  {
    if k >= 7 {
      Pow32Large(k);
      Times(x, Pow32(k));
    }
    Pow32Pow2(k);
    assert 5 * k % 32 == 5 * k;
    ToInt32Exact(x * Pow32(k));
    Times(x, Pow32(k));
  }

  lemma Times(a: nat, p: nat)
    ensures a > 0 ==> a * p >= p
    ensures a * p >= 0
  {
  }

  lemma RawLast(ds: seq<nat>, d: nat)
    ensures Raw(ds + [d]) == Raw(ds) + (d % 32) * Pow32(|ds|)
  {
    assert (ds + [d])[..|ds|] == ds;
  }

  lemma ShiftZero(n: nat)
    ensures ShiftLeft(0, n) == 0
  {
    assert 0 * Pow2(n % 32) == 0;
  }

  /** As long as the value stays below 2^31, adding a digit with a 32-bit shift adds its exact weight. */
  lemma {:induction false} ShiftIsExact(ds: seq<nat>, d: nat)
    requires Raw(ds + [d]) < TWO31
    ensures Raw(ds) + ShiftLeft(d % 32, 5 * |ds|) == Raw(ds + [d])
  {
    RawLast(ds, d);
    AddWeight(Raw(ds), d % 32, |ds|, Raw(ds + [d]));
  }

  lemma AddWeight(raw: nat, x: nat, k: nat, total: nat)
    requires total == raw + x * Pow32(k) && total < TWO31
    ensures raw + ShiftLeft(x, 5 * k) == total
  {
    if x == 0 {
      ShiftZero(5 * k);
    } else {
      ShiftFits(x, k);
    }
  }

  /** The end of the reading loop: sign bit, shift, negation. */
  lemma SignIsExact(raw: nat)
    requires raw < TWO31
    ensures ShiftRight(raw, 1) == raw / 2 && ToInt32(raw) % 2 == raw % 2
    ensures Signed(raw) == if ToInt32(raw) % 2 == 1 then -ShiftRight(raw, 1) else ShiftRight(raw, 1)
  {
    assert Pow2(1) == 2 by { assert Pow2(0) == 1; }
    ToInt32Exact(raw);
  }
}
