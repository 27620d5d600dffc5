/** The per-connection intake buffer: a fixed array of bytes and the offset
    that marks the end of the valid, not yet consumed data (src/buffer.rs). */
module NetBuffer {

  /** An unsigned octet, Rust's `u8`. */
  newtype u8 = x: int | 0 <= x < 256

  const MAX_BUFFER_SIZE: nat := 1024 * 16

  /** An offset into the buffer: never past its end. */
  type Offset = n: nat | n <= MAX_BUFFER_SIZE

  /** A sequence of `n` zero bytes. */
  function Zeros(n: nat): (z: seq<u8>)
    ensures |z| == n && forall i :: 0 <= i < n ==> z[i] == 0
  {
    seq(n, _ => 0)
  }

  class NetworkBuffer {
    const data: array<u8>
    var offset: Offset

    /** The array has the buffer's fixed size (the offset stays inside it by
        its type). */
    ghost predicate Valid()
    {
      data.Length == MAX_BUFFER_SIZE
    }

    /** The bytes received and not yet consumed, in arrival order. */
    ghost function Contents(): (s: seq<u8>)
      reads this, data
      requires Valid()
      ensures |s| == offset
    {
      data[..offset]
    }

    /** `NetworkBuffer::new`: an all-zero array and an empty valid region. */
    constructor ()
      ensures Valid() && fresh(data)
      ensures offset == 0 && data[..] == Zeros(MAX_BUFFER_SIZE)
    {
      data := new u8[MAX_BUFFER_SIZE](_ => 0);
      offset := 0;
    }

    /** `drain`: moves the `offset - count` bytes that follow the first `count`
        down to index 0 and shortens the valid region by `count`. Bytes from
        the new offset on keep their old values. */
    method Drain(count: nat)
      requires Valid() && count <= offset
      modifies this, data
      ensures Valid()
      ensures offset == old(offset) - count
      ensures data[..] == old(data[count..offset]) + old(data[offset - count..])
      ensures Contents() == old(Contents())[count..]
      ensures forall i :: offset <= i < MAX_BUFFER_SIZE ==> data[i] == old(data[i])
      ensures count == old(offset) ==> Contents() == []
      ensures count == 0 ==> offset == old(offset) && data[..] == old(data[..])
    {
      var n := offset - count;
      var i := 0;
      while i < n
        invariant 0 <= i <= n
        invariant data[..i] == old(data[count..count + i])
        invariant data[i..] == old(data[i..])
      {
        data[i] := data[i + count];
        i := i + 1;
      }
      offset := n;
    }

    /** `clear`: zero every byte and empty the valid region. */
    method Clear()
      requires Valid()
      modifies this, data
      ensures Valid()
      ensures offset == 0 && data[..] == Zeros(MAX_BUFFER_SIZE)
    {
      forall i | 0 <= i < data.Length {
        data[i] := 0;
      }
      offset := 0;
    }
  }
}
