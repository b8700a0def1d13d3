/**
 * The random-access adapter over a forward-only `InputStream`.
 *
 * Every read of the adapter rewinds its source with `reset()` and `skip(pos)`
 * before reading. The source is taken to be an `InputStream` marked at its
 * first byte and fully available, such as a `ByteArrayInputStream`; such a
 * source always yields the same bytes from a given offset on, so it is modelled
 * as the immutable sequence `data`. Skipping past its end stops at the end, so
 * reading at an offset `>= |data|` yields the end-of-stream marker -1.
 */
module SeekableStream {
  import opened Bytes
  import opened Results

  /** The exceptions the adapter throws or lets through. */
  datatype IoError =
    | IncorrectSeekPosition(newPos: int)        // IOException of seek
    | ArrayOutOfBound(size: int, start: int, len: int)  // IOException of readFully
    | EndOfFile(size: int, pos: int, len: int)  // EOFException of readFully
    | IndexOutOfBounds                          // unchecked: a store below the array, or bad read(b, off, len) arguments

  /** The part of `java.nio.ByteBuffer` the adapter uses: relative `put` into a heap buffer. */
  class ByteBuffer {
    const hb: array<byte>
    var position: nat

    ghost predicate Valid()
      reads this
    {
      position <= hb.Length
    }

    constructor Allocate(capacity: nat)
      ensures Valid() && fresh(hb)
      ensures hb.Length == capacity && position == 0
    {
      hb := new byte[capacity](_ => 0);
      position := 0;
    }

    /** Stores `b` at the position and advances it; the caller leaves room for it. */
    method Put(b: byte)
      requires Valid() && position < hb.Length
      modifies this, hb
      ensures Valid()
      ensures position == old(position) + 1
      ensures hb[..] == old(hb[..position]) + [b] + old(hb[position + 1..])
    {
      hb[position] := b;
      position := position + 1;
    }
  }

  class SeekableInputStreamBuilder {
    /** The bytes of the wrapped source, from its mark on. */
    const data: seq<byte>
    /** The cursor; a Java `long`. */
    var pos: nat
    /** The number of bytes the source reported available at construction. */
    var count: int

    ghost predicate Valid()
      reads this
    {
      count == |data| && count <= INT32_MAX
    }

    /** Wraps the source: rewinds it, and records how many bytes it holds. */
    constructor (input: seq<byte>)
      requires |input| <= INT32_MAX
      ensures Valid()
      ensures data == input && pos == 0 && count == |input|
    {
      data := input;
      pos := 0;
      count := |input|;
    }

    method GetPos() returns (p: int)
      ensures p == pos
    {
      p := pos;
    }

    /** Moves the cursor to `newPos`, which must lie in `[0, count)`: the end itself is refused. */
    method Seek(newPos: int) returns (r: Outcome<IoError>)
      requires Valid()
      modifies this`pos
      ensures Valid()
      ensures r.Pass? <==> 0 <= newPos < count
      ensures r.Pass? ==> pos == newPos
      ensures r.Fail? ==> r.error == IncorrectSeekPosition(newPos) && pos == old(pos)
    {
      if newPos < 0 || newPos >= count {
        return Fail(IncorrectSeekPosition(newPos));
      }
      pos := newPos;
      r := Pass;
    }

    /** Reads the whole of `bytes` from the cursor on. */
    method ReadFullyArray(bytes: array<byte>) returns (r: Outcome<IoError>)
      requires Valid() && bytes.Length <= INT32_MAX
      modifies this`pos, bytes
      ensures Valid()
      ensures r.Pass? <==> old(pos) + bytes.Length <= count
      ensures r.Pass? ==> pos == old(pos) + bytes.Length && bytes[..] == data[old(pos)..pos]
      ensures r.Fail? ==> r.error == EndOfFile(count, old(pos), bytes.Length)
      ensures r.Fail? ==> pos == old(pos) && bytes[..] == old(bytes[..])
    {
      r := ReadFully(bytes, 0, bytes.Length);
    }

    /**
     * Copies `len` bytes from the cursor on into `bytes[start..start + len]`, one
     * at a time, advancing the cursor with each. Both range checks come before
     * anything is copied. The sum `start + len` is taken not to wrap.
     */
    method ReadFully(bytes: array<byte>, start: int, len: int) returns (r: Outcome<IoError>)
      requires Valid()
      requires IsInt32(start) && IsInt32(len) && IsInt32(start + len)
      modifies this`pos, bytes
      ensures Valid()
      ensures r.Pass? <==> start + len <= bytes.Length && old(pos) + len <= count && (len <= 0 || 0 <= start)
      ensures start + len > bytes.Length ==> r == Fail(ArrayOutOfBound(bytes.Length, start, len))
      ensures start + len <= bytes.Length && old(pos) + len > count ==> r == Fail(EndOfFile(count, old(pos), len))
      ensures start + len <= bytes.Length && old(pos) + len <= count && len > 0 && start < 0 ==> r == Fail(IndexOutOfBounds)
      ensures r.Fail? || len <= 0 ==> pos == old(pos) && bytes[..] == old(bytes[..])
      ensures r.Pass? && len > 0 ==>
        && pos == old(pos) + len
        && bytes[start..start + len] == data[old(pos)..pos]
        && bytes[..start] == old(bytes[..start])
        && bytes[start + len..] == old(bytes[start + len..])
    {
      if start + len > bytes.Length {
        return Fail(ArrayOutOfBound(bytes.Length, start, len));
      }
      if pos + len > count {
        return Fail(EndOfFile(count, pos, len));
      }
      var i := 0;
      while i < len
        invariant 0 <= i && (i <= len || i == 0)
        invariant start < 0 ==> i == 0
        invariant pos == old(pos) + i
        invariant forall k :: 0 <= k < bytes.Length ==>
          bytes[k] == if start <= k < start + i then data[old(pos) + k - start] else old(bytes[k])
      {
        if start + i < 0 {
          // The array store throws before the cursor moves.
          return Fail(IndexOutOfBounds);
        }
        bytes[start + i] := data[pos];
        pos := pos + 1;
        i := i + 1;
      }
      r := Pass;
    }

    /**
     * Appends everything from the cursor to the end of the data to `buf` and
     * returns how many bytes that was; at or past the end, returns -1. The buffer
     * is taken to have room for what is appended.
     */
    method ReadBuffer(buf: ByteBuffer) returns (size: int)
      requires Valid() && buf.Valid()
      requires pos < count ==> count - pos <= buf.hb.Length - buf.position
      modifies this`pos, buf, buf.hb
      ensures Valid() && buf.Valid()
      ensures old(pos) >= count ==>
        size == -1 && pos == old(pos) && buf.position == old(buf.position) && buf.hb[..] == old(buf.hb[..])
      ensures old(pos) < count ==>
        && size == count - old(pos) && size >= 1
        && pos == count
        && buf.position == old(buf.position) + size
        && buf.hb[..] == old(buf.hb[..buf.position]) + data[old(pos)..count] + old(buf.hb[buf.position + size..])
    {
      if pos >= count {
        return -1;
      }
      ghost var p0, b0, h0 := pos, buf.position, buf.hb[..];
      buf.Put(data[pos]);
      pos := pos + 1;
      size := 1;
      while pos < count
        invariant Valid() && buf.Valid()
        invariant p0 < pos <= count && size == pos - p0
        invariant buf.position == b0 + size
        invariant buf.hb[..] == h0[..b0] + data[p0..pos] + h0[b0 + size..]
      {
        buf.Put(data[pos]);
        pos := pos + 1;
        size := size + 1;
      }
    }

    /** Same as `ReadBuffer`, with the count dropped. */
    method ReadFullyBuffer(buf: ByteBuffer)
      requires Valid() && buf.Valid()
      requires pos < count ==> count - pos <= buf.hb.Length - buf.position
      modifies this`pos, buf, buf.hb
      ensures Valid() && buf.Valid()
      ensures old(pos) >= count ==>
        pos == old(pos) && buf.position == old(buf.position) && buf.hb[..] == old(buf.hb[..])
      ensures old(pos) < count ==>
        && pos == count
        && buf.position == old(buf.position) + count - old(pos)
        && buf.hb[..] == old(buf.hb[..buf.position]) + data[old(pos)..count] + old(buf.hb[..])[old(buf.position) + count - old(pos)..]
    {
      var _ := ReadBuffer(buf);
    }

    /** Returns the byte at the cursor, or -1 at or past the end; the cursor moves on by one either way. */
    method Read() returns (c: int)
      requires Valid()
      modifies this`pos
      ensures Valid()
      ensures pos == old(pos) + 1
      ensures c == if old(pos) < count then data[old(pos)] as int else -1
    {
      c := if pos < count then data[pos] as int else -1;
      pos := pos + 1;
    }

    /**
     * `read(b, off, len)`: the source's own bulk read from the cursor (that of a
     * `ByteArrayInputStream`: at most the bytes that remain, -1 when none do), after
     * which the cursor moves on by `len` whatever was read.
     */
    method ReadRange(b: array<byte>, off: int, len: int) returns (r: Result<int, IoError>)
      requires Valid() && IsInt32(off) && IsInt32(len)
      modifies this`pos, b
      ensures Valid()
      ensures r.Err? <==> off < 0 || len < 0 || len > b.Length - off
      ensures r.Err? ==> r.error == IndexOutOfBounds && pos == old(pos) && b[..] == old(b[..])
      ensures r.Ok? ==> pos == old(pos) + len
      ensures r.Ok? && old(pos) >= count ==> r.value == -1 && b[..] == old(b[..])
      ensures r.Ok? && old(pos) < count ==>
        && r.value == (if len < count - old(pos) then len else count - old(pos))
        && b[off..off + r.value] == data[old(pos)..old(pos) + r.value]
        && b[..off] == old(b[..off])
        && b[off + r.value..] == old(b[off + r.value..])
    {
      if off < 0 || len < 0 || len > b.Length - off {
        return Err(IndexOutOfBounds);
      }
      var result;
      if pos >= count {
        result := -1;
      } else {
        var n := if len < count - pos then len else count - pos;
        forall k | 0 <= k < n {
          b[off + k] := data[pos + k];
        }
        result := n;
      }
      pos := pos + len;
      r := Ok(result);
    }
  }
}
