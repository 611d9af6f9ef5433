/** The stream of length-prefixed messages of the RPC connection: the decoder, the loop that reads and decodes, and
    the proof that it does not matter how the stream is cut into reads. */
module Frames {
  import opened Options
  import opened Integers
  import opened Sequences

  type Message = m: seq<Byte> | |m| < TWO32

  const U32_SIZE := 4

  function FourDigits(a: int, b: int, c: int, d: int): int {
    ((a * 0x100 + b) * 0x100 + c) * 0x100 + d
  }

  /** `u32::from_be_bytes`. */
  function FromBigEndian(b: seq<Byte>): U32
    requires |b| == U32_SIZE
  {
    FourDigits(b[0], b[1], b[2], b[3])
  }

  function ToBigEndian(n: U32): (b: seq<Byte>)
    ensures |b| == U32_SIZE && FromBigEndian(b) == n
  {
    var n1 := n / 0x100;
    var n2 := n1 / 0x100;
    [n2 / 0x100, n2 % 0x100, n1 % 0x100, n % 0x100]
  }

  lemma LastDigit(x: int, d: Byte)
    ensures (x * 0x100 + d) / 0x100 == x && (x * 0x100 + d) % 0x100 == d
  {
  }

  lemma BigEndianRoundTrip(b: seq<Byte>)
    requires |b| == U32_SIZE
    ensures ToBigEndian(FromBigEndian(b)) == b
  {
    var x: int := b[0];
    LastDigit(x, b[1]);
    LastDigit(x * 0x100 + b[1], b[2]);
    LastDigit((x * 0x100 + b[1]) * 0x100 + b[2], b[3]);
  }

  /** The length is the number that the four bytes stand for, with the most significant byte first. */
  lemma LengthIsWeighted(b: seq<Byte>)
    requires |b| == U32_SIZE
    ensures FromBigEndian(b) == (b[0] as int) * 0x100_0000 + (b[1] as int) * 0x1_0000 + (b[2] as int) * 0x100 + b[3]
  {
  }

  /** Lengths are ordered as their bytes are, lexicographically. */
  lemma LengthOrder(b: seq<Byte>, c: seq<Byte>)
    requires |b| == U32_SIZE && |c| == U32_SIZE
    ensures FromBigEndian(b) < FromBigEndian(c)
       <==> exists i :: 0 <= i < U32_SIZE && b[..i] == c[..i] && b[i] < c[i]
  {
    LengthIsWeighted(b);
    LengthIsWeighted(c);
    if FromBigEndian(b) < FromBigEndian(c) {
      var i := FirstDifference(b, c);
    }
    if i :| 0 <= i < U32_SIZE && b[..i] == c[..i] && b[i] < c[i] {
      assert forall k :: 0 <= k < i ==> b[k] == b[..i][k] && c[k] == c[..i][k];
    }
  }

  lemma FirstDifference(b: seq<Byte>, c: seq<Byte>) returns (i: nat)
    requires |b| == U32_SIZE && |c| == U32_SIZE && FromBigEndian(b) < FromBigEndian(c)
    ensures i < U32_SIZE && b[..i] == c[..i] && b[i] < c[i]
  {
    LengthIsWeighted(b);
    LengthIsWeighted(c);
    i := if b[0] != c[0] then 0 else if b[1] != c[1] then 1 else if b[2] != c[2] then 2 else 3;
  }

  /** A message as it travels. */
  function Frame(m: Message): (f: seq<Byte>)
    ensures |f| == U32_SIZE + |m|
  {
    ToBigEndian(|m|) + m
  }

  function FrameAll(ms: seq<Message>): seq<Byte> {
    if ms == [] then [] else Frame(ms[0]) + FrameAll(ms[1..])
  }

  // ---------------------------------------------------------------- what the decoder finds

  /** Bytes that the frame at the front of the buffer takes, if its length can be read. */
  function RequiredLength(buf: seq<Byte>): (n: nat)
    requires U32_SIZE <= |buf|
    ensures U32_SIZE <= n < U32_SIZE + TWO32
  {
    U32_SIZE + FromBigEndian(buf[..U32_SIZE])
  }

  predicate HasFrame(buf: seq<Byte>) {
    U32_SIZE <= |buf| && RequiredLength(buf) <= |buf|
  }

  function Head(buf: seq<Byte>): Message
    requires HasFrame(buf)
  {
    buf[U32_SIZE..RequiredLength(buf)]
  }

  function Tail(buf: seq<Byte>): (rest: seq<Byte>)
    requires HasFrame(buf)
    ensures |rest| < |buf|
  {
    buf[RequiredLength(buf)..]
  }

  function Messages(buf: seq<Byte>): seq<Message>
    decreases |buf|
  {
    if HasFrame(buf) then [Head(buf)] + Messages(Tail(buf)) else []
  }

  function Rest(buf: seq<Byte>): seq<Byte>
    decreases |buf|
  {
    if HasFrame(buf) then Rest(Tail(buf)) else buf
  }

  class BytesMut {
    var bytes: seq<Byte>

    constructor ()
      ensures bytes == []
    {
      bytes := [];
    }
  }

  class U32PrefixedCodec {
    constructor () {
    }

    /** Takes one message off the buffer, or leaves the buffer as it is. */
    method Decode(src: BytesMut) returns (item: Option<Message>)
      modifies src
      ensures item == if HasFrame(old(src.bytes)) then Some(Head(old(src.bytes))) else None
      ensures src.bytes == if HasFrame(old(src.bytes)) then Tail(old(src.bytes)) else old(src.bytes)
      ensures |old(src.bytes)| < 4 ==> item.None?
      ensures var b := old(src.bytes);
              4 <= |b| ==>
                var n: nat := (b[0] as int) * 0x100_0000 + (b[1] as int) * 0x1_0000 + (b[2] as int) * 0x100 + b[3];
                item == if 4 + n <= |b| then Some(b[4..4 + n]) else None
    {
      if |src.bytes| < U32_SIZE {
        return None;
      }
      var beBytes := src.bytes[..U32_SIZE];
      var requiredLen := U32_SIZE + FromBigEndian(beBytes);
      LengthIsWeighted(beBytes);
      if |src.bytes| < requiredLen {
        return None;
      }
      var msg := src.bytes[U32_SIZE..requiredLen];
      src.bytes := src.bytes[requiredLen..];
      return Some(msg);
    }
  }

  /** The reading side of a connection. */
  class Connection {
    const decoder: U32PrefixedCodec
    const decoderBuf: BytesMut
    /** The messages handed to the dispatcher, in order. */
    var dispatched: seq<Message>

    constructor ()
      ensures dispatched == [] && decoderBuf.bytes == [] && fresh(decoderBuf)
    {
      decoder := new U32PrefixedCodec();
      decoderBuf := new BytesMut();
      dispatched := [];
    }

    /** One read, and every message that it completes. */
    method Receive(chunk: seq<Byte>)
      modifies this, decoderBuf
      ensures dispatched == old(dispatched) + Messages(old(decoderBuf.bytes) + chunk)
      ensures decoderBuf.bytes == Rest(old(decoderBuf.bytes) + chunk)
    {
      decoderBuf.bytes := decoderBuf.bytes + chunk;
      ghost var all := decoderBuf.bytes;
      while true
        invariant dispatched + Messages(decoderBuf.bytes) == old(dispatched) + Messages(all)
        invariant Rest(decoderBuf.bytes) == Rest(all)
        decreases |decoderBuf.bytes|
      {
        ghost var before := decoderBuf.bytes;
        var frame := decoder.Decode(decoderBuf);
        if frame.None? {
          break;
        }
        dispatched := dispatched + [frame.value];
      }
    }

    /** The messages and the remaining bytes depend on the stream alone, not on its reads. */
    method Run(chunks: seq<seq<Byte>>)
      requires dispatched == [] && decoderBuf.bytes == []
      modifies this, decoderBuf
      ensures dispatched == Messages(Flatten(chunks))
      ensures decoderBuf.bytes == Rest(Flatten(chunks))
    {
      var i := 0;
      while i < |chunks|
        invariant i <= |chunks|
        invariant dispatched == Messages(Flatten(chunks[..i]))
        invariant decoderBuf.bytes == Rest(Flatten(chunks[..i]))
      {
        Receive(chunks[i]);
        MessagesConcat(Flatten(chunks[..i]), chunks[i]);
        assert chunks[..i + 1][..i] == chunks[..i];
        i := i + 1;
      }
      assert chunks[..i] == chunks;
    }
  }

  // ---------------------------------------------------------------- results

  /** Decoding what has arrived and then what is left over together with new bytes is decoding everything. */
  lemma {:induction false} MessagesConcat(buf: seq<Byte>, more: seq<Byte>)
    ensures Messages(buf + more) == Messages(buf) + Messages(Rest(buf) + more)
    ensures Rest(buf + more) == Rest(Rest(buf) + more)
    decreases |buf|
  {
    if HasFrame(buf) {
      HasFrameConcat(buf, more);
      MessagesConcat(Tail(buf), more);
    }
  }

  lemma HasFrameConcat(buf: seq<Byte>, more: seq<Byte>)
    requires HasFrame(buf)
    ensures HasFrame(buf + more) && Head(buf + more) == Head(buf) && Tail(buf + more) == Tail(buf) + more
  {
    assert (buf + more)[..U32_SIZE] == buf[..U32_SIZE];
  }

  lemma HeadIsFrame(buf: seq<Byte>)
    requires HasFrame(buf)
    ensures buf == Frame(Head(buf)) + Tail(buf)
  {
    BigEndianRoundTrip(buf[..U32_SIZE]);
    var n := RequiredLength(buf);
    assert buf[..U32_SIZE] + buf[U32_SIZE..n] + buf[n..] == buf;
  }

  /** The stream is the frames of the decoded messages and what is left over. */
  lemma {:induction false} StreamIsConserved(buf: seq<Byte>)
    ensures FrameAll(Messages(buf)) + Rest(buf) == buf
    ensures !HasFrame(Rest(buf))
    decreases |buf|
  {
    if HasFrame(buf) {
      HeadIsFrame(buf);
      StreamIsConserved(Tail(buf));
    }
  }

  /** The length in front of a message is big-endian: the first message of a buffer has the length that its first four
      bytes stand for, and none is there until all of it is. */
  lemma FirstMessage(buf: seq<Byte>, n: nat)
    requires U32_SIZE <= |buf|
    requires n == (buf[0] as int) * 0x100_0000 + (buf[1] as int) * 0x1_0000 + (buf[2] as int) * 0x100 + buf[3]
    ensures |buf| < 4 + n ==> Messages(buf) == [] && Rest(buf) == buf
    ensures |buf| >= 4 + n ==> Messages(buf) == [buf[4..4 + n]] + Messages(buf[4 + n..])
    ensures |buf| >= 4 + n ==> Rest(buf) == Rest(buf[4 + n..])
  {
    LengthIs(buf, n);
  }

  lemma LengthIs(buf: seq<Byte>, n: nat)
    requires U32_SIZE <= |buf|
    requires n == (buf[0] as int) * 0x100_0000 + (buf[1] as int) * 0x1_0000 + (buf[2] as int) * 0x100 + buf[3]
    ensures RequiredLength(buf) == 4 + n
  {
    LengthIsWeighted(buf[..U32_SIZE]);
  }

  /** A short message behind three zeros and its length. */
  lemma ShortMessage(m: Message, buf: seq<Byte>)
    requires |m| < 0x100 && buf == [0, 0, 0, |m| as Byte] + m
    ensures Messages(buf) == [m] && Rest(buf) == []
  {
    FirstMessage(buf, |m|);
    assert buf[4..4 + |m|] == m && buf[4 + |m|..] == [];
  }

  /** Any messages, followed by any part of a further frame, are decoded to exactly these messages and that part. */
  lemma {:induction false} MessagesRoundTrip(ms: seq<Message>, part: seq<Byte>)
    requires !HasFrame(part)
    ensures Messages(FrameAll(ms) + part) == ms && Rest(FrameAll(ms) + part) == part
    decreases |ms|
  {
    if ms == [] {
      assert FrameAll(ms) + part == part;
    } else {
      var rest := FrameAll(ms[1..]) + part;
      assert FrameAll(ms) + part == Frame(ms[0]) + rest;
      MessagesRoundTrip(ms[1..], part);
    }
  }

  /** What stays in the buffer without completing a frame is what a strict prefix of some frame is. */
  lemma LeftoverIsPartOfFrame(part: seq<Byte>)
    ensures !HasFrame(part) <==> exists m: Message :: part < Frame(m)
  {
    if !HasFrame(part) {
      var m := Completion(part);
      assert part < Frame(m);
    } else {
      forall m: Message | part <= Frame(m) ensures |part| == |Frame(m)| {
        assert part[..U32_SIZE] == Frame(m)[..U32_SIZE] == ToBigEndian(|m|);
      }
    }
  }

  /** A message whose frame begins with the given bytes. */
  lemma Completion(part: seq<Byte>) returns (m: Message)
    requires !HasFrame(part)
    ensures part < Frame(m)
  {
    if |part| < U32_SIZE {
      var prefix := part + seq(U32_SIZE - |part|, _ => 0 as Byte);
      m := Filler(prefix, []);
      assert part <= prefix && prefix <= Frame(m);
    } else {
      var body := part[U32_SIZE..];
      m := Filler(part[..U32_SIZE], body);
      assert part == part[..U32_SIZE] + body;
    }
  }

  lemma Filler(prefix: seq<Byte>, body: seq<Byte>) returns (m: Message)
    requires |prefix| == U32_SIZE && (body == [] || |body| < FromBigEndian(prefix))
    ensures prefix + body <= Frame(m) && |m| == FromBigEndian(prefix)
  {
    m := body + seq(FromBigEndian(prefix) - |body|, _ => 0 as Byte);
    FrameWithPrefix(prefix, m);
    PrefixGrows(prefix, body, m);
  }

  lemma FrameWithPrefix(prefix: seq<Byte>, m: Message)
    requires |prefix| == U32_SIZE && |m| == FromBigEndian(prefix)
    ensures Frame(m) == prefix + m
  {
    BigEndianRoundTrip(prefix);
  }

  lemma PrefixGrows<T>(a: seq<T>, b: seq<T>, c: seq<T>)
    requires b <= c
    ensures a + b <= a + c
  {
    assert (a + c)[..|a + b|] == a + b;
  }
}
