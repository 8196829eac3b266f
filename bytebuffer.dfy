/**
 * The part of java.nio.ByteBuffer the converters and the writer rely on:
 * a heap buffer of fixed capacity, zero-filled on allocation, with a write
 * position that `put` advances. A `put` that does not fit raises
 * BufferOverflowException before copying anything.
 */
module Buffers {
  import opened Charsets

  class ByteBuffer {
    const data: array<byte>
    var position: nat

    ghost predicate Valid()
      reads this
    {
      position <= data.Length
    }

    /** The bytes put so far. */
    function Written(): seq<byte>
      reads this, data
      requires Valid()
    {
      data[..position]
    }

    /** ByteBuffer.allocate(capacity) for a capacity that is not negative. */
    constructor (capacity: nat)
      ensures Valid() && fresh(data)
      ensures data.Length == capacity && position == 0
      ensures data[..] == seq(capacity, _ => 0 as byte)
    {
      data := new byte[capacity](_ => 0 as byte);
      position := 0;
    }

    /**
     * put(src): copies `src` at the position and advances it, or reports an
     * overflow (result false) and changes nothing when `src` does not fit.
     */
    method Put(src: seq<byte>) returns (ok: bool)
      requires Valid()
      modifies this, data
      ensures Valid()
      ensures ok <==> old(position) + |src| <= data.Length
      ensures ok ==> position == old(position) + |src|
      ensures ok ==> data[..] == old(data[..position]) + src + old(data[position + |src|..])
      ensures ok ==> Written() == old(Written()) + src
      ensures !ok ==> position == old(position) && data[..] == old(data[..])
    {
      if position + |src| > data.Length {
        return false;
      }
      forall i | 0 <= i < |src| {
        data[position + i] := src[i];
      }
      position := position + |src|;
      return true;
    }
  }
}
