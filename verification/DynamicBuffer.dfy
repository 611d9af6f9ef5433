/** The growing byte array of the bundler. */
module DynamicBuffers {
  import opened Integers
  import opened Vlq

  class DynamicBuffer {
    var buffer: array<Byte>
    var size: nat
    /** Bytes copied by growing, over the life of the buffer. */
    ghost var copied: nat

    ghost predicate Shape()
      reads this
    {
      size <= buffer.Length && 512 <= buffer.Length && copied <= buffer.Length
    }

    /** The capacity is at most twice what is used, or the initial one; growing has copied no more than that. */
    ghost predicate Valid()
      reads this
    {
      Shape() && buffer.Length <= Max(512, 2 * size)
    }

    ghost function Contents(): seq<Byte>
      reads this, buffer
      requires Shape()
    {
      buffer[..size]
    }

    ghost function Repr(): set<object>
      reads this
    {
      {this, buffer}
    }

    constructor ()
      ensures Valid() && Contents() == [] && fresh(Repr())
    {
      buffer := new Byte[512](_ => 0);
      size := 0;
      copied := 0;
    }

    method EnsureCapacity(capacity: nat)
      requires Shape()
      modifies this`buffer, this`copied
      ensures Shape() && Contents() == old(Contents()) && buffer.Length >= capacity
      ensures buffer == old(buffer) || fresh(buffer)
      ensures buffer.Length <= Max(old(buffer.Length), 2 * capacity)
    {
      if buffer.Length >= capacity {
        return;
      }
      var oldBuffer := buffer;
      var n := if oldBuffer.Length * 2 < capacity then capacity else oldBuffer.Length * 2;
      buffer := new Byte[n](i requires 0 <= i reads oldBuffer => if i < oldBuffer.Length then oldBuffer[i] else 0);
      copied := copied + oldBuffer.Length;
    }

    method AddByte(b: Byte)
      requires Valid()
      modifies this, buffer
      ensures Valid() && Contents() == old(Contents()) + [b]
      ensures buffer == old(buffer) || fresh(buffer)
    {
      EnsureCapacity(size + 1);
      buffer[size] := b;
      size := size + 1;
      assert Contents() == old(Contents()) + [b];
    }

    method AddBuffer(b: seq<Byte>)
      requires Valid()
      modifies this, buffer
      ensures Valid() && Contents() == old(Contents()) + b
      ensures buffer == old(buffer) || fresh(buffer)
    {
      EnsureCapacity(size + |b|);
      forall i | 0 <= i < |b| {
        buffer[size + i] := b[i];
      }
      size := size + |b|;
      assert Contents() == old(Contents()) + b;
    }

    method AddVlq(num: int)
      requires Valid()
      modifies this, buffer
      ensures Valid() && Contents() == old(Contents()) + VlqBytes(num)
      ensures buffer == old(buffer) || fresh(buffer)
    {
      var n := if num < 0 then ShiftLeft(-num, 1) + 1 else ShiftLeft(num, 1);
      FoldedRange(num);
      WrittenSmall(n);
      var more := true;
      while more
        invariant Valid() && (buffer == old(buffer) || fresh(buffer))
        invariant -TWO31 <= n < TWO31
        invariant Contents() + (if more then WrittenBytes(n) else []) == old(Contents()) + VlqBytes(num)
        decreases more, n
      {
        var clamped := n % 32;
        WrittenBytesStep(n);
        n := ShiftRight(n, 5);
        if n > 0 {
          clamped := clamped + 32;
        }
        AddByte(IntegerToChar(clamped));
        more := n > 0;
      }
    }
  }
}
