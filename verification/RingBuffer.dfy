/** The byte ring of tools/ringbuffer.c: masked positions over a buffer whose
    size is a power of two, used by one thread as a bounded first-in first-out
    queue.  `RingProtocol` treats concurrent use. */
module RingBuffer {
  import opened Bits

  // ---- the size helpers -----------------------------------------------------

  function RestSize(writePos: uint32, readPos: uint32, size: uint32): uint32 {
    if writePos == readPos then size
    else Sub32(size, And(Sub32(writePos, readPos), Sub32(size, 1)))
  }

  function UsedSize(writePos: uint32, readPos: uint32, size: uint32): uint32 {
    if writePos == readPos then 0
    else And(Sub32(writePos, readPos), Sub32(size, 1))
  }

  function Advance(pos: uint32, len: uint32, size: uint32): uint32 {
    And(Add32(pos, len), Sub32(size, 1))
  }

  /** Steps from r forward to w around a ring of `size` places. */
  function Distance(w: nat, r: nat, size: nat): (n: nat)
    requires w < size && r < size
    ensures n < size
  {
    if r <= w then w - r else w - r + size
  }

  function Wrap(i: nat, size: nat): nat
    requires i < 2 * size
  {
    if i < size then i else i - size
  }

  /** What the masked helpers compute for a power-of-two size. */
  lemma SizesAreDistances(w: uint32, r: uint32, size: uint32)
    requires IsPow2(size) && w < size && r < size
    ensures UsedSize(w, r, size) == Distance(w, r, size)
    ensures RestSize(w, r, size) == size - Distance(w, r, size)
  {
    MaskedDifference(w, r, size);
    Wrap32(size - Distance(w, r, size));
  }

  /** A put makes room for the bytes exactly as the unmasked counters would. */
  lemma AdvanceDistance(w: uint32, n: uint32, r: uint32, size: uint32)
    requires IsPow2(size) && w < size && r < size
    requires Distance(w, r, size) + n < size
    ensures Advance(w, n, size) == Wrap(w + n, size) < size
    ensures Distance(Advance(w, n, size), r, size) == Distance(w, r, size) + n
  {
    MaskedSum(w, n, size);
  }

  lemma RetireDistance(w: uint32, r: uint32, n: uint32, size: uint32)
    requires IsPow2(size) && w < size && r < size
    requires n <= Distance(w, r, size)
    ensures Advance(r, n, size) == Wrap(r + n, size) < size
    ensures Distance(w, Advance(r, n, size), size) == Distance(w, r, size) - n
  {
    MaskedSum(r, n, size);
  }

  // ---- the bytes between two positions ----------------------------------------

  function Window<T>(d: seq<T>, r: nat, n: nat): (s: seq<T>)
    requires n == 0 || (r < |d| && n <= |d|)
    ensures |s| == n
  {
    seq(n, i requires 0 <= i < n => d[Wrap(r + i, |d|)])
  }

  /** The buffer after b has been copied in from position `pos`, wrapping. */
  function CopyIn<T>(d: seq<T>, pos: nat, b: seq<T>): (d': seq<T>)
    requires pos < |d| && |b| <= |d|
    ensures |d'| == |d|
  {
    seq(|d|, j requires 0 <= j < |d| =>
      if pos <= j < pos + |b| then b[j - pos]
      else if j + |d| < pos + |b| then b[j + |d| - pos]
      else d[j])
  }

  lemma WindowCopyIn<T>(d: seq<T>, r: nat, n: nat, b: seq<T>)
    requires r < |d| && n + |b| <= |d| && n < |d|
    ensures Window(CopyIn(d, Wrap(r + n, |d|), b), r, n + |b|) == Window(d, r, n) + b
  {
    var pos := Wrap(r + n, |d|);
    var d' := CopyIn(d, pos, b);
    forall i | 0 <= i < n + |b|
      ensures d'[Wrap(r + i, |d|)] == (Window(d, r, n) + b)[i]
    {}
  }

  lemma WindowGet<T>(d: seq<T>, r: nat, n: nat, m: nat)
    requires r < |d| && m <= n <= |d|
    ensures Window(d, Wrap(r + m, |d|), n - m) == Window(d, r, n)[m..]
  {
    forall i | 0 <= i < n - m
      ensures Window(d, Wrap(r + m, |d|), n - m)[i] == Window(d, r, n)[m..][i]
    {
      assert Wrap(Wrap(r + m, |d|) + i, |d|) == Wrap(r + (m + i), |d|);
    }
  }

  // ---- the ring ----------------------------------------------------------------

  class RingBuffer {
    const size: uint32
    const data: array<byte>
    var readPos: uint32
    var writePos: uint32
    var finishPos: uint32

    /** Between calls every reservation is published, so finishPos == writePos. */
    ghost predicate Valid()
      reads this
    {
      && data.Length == size
      && finishPos == writePos
      && if size == 0 then readPos == writePos == 0
         else IsPow2(size) && readPos < size && writePos < size
    }

    ghost function Used(): nat
      reads this
      requires Valid()
    {
      if size == 0 then 0 else Distance(writePos, readPos, size)
    }

    /** The queued bytes, oldest first. */
    ghost function Contents(): (s: seq<byte>)
      reads this, data
      requires Valid()
    {
      Window(data[..], readPos, Used())
    }

    /** The sizing part of ringbuffer_create: the size is rounded up to a power
        of two, which is 0 for a request of 0 or of more than 2^31 bytes. */
    constructor (request: uint32)
      ensures Valid() && fresh(data) && Contents() == []
      ensures size == if IsPowerOf2(request) then request else RoundUp2(request)
      ensures 1 <= request <= 0x8000_0000 ==> request <= size && IsPow2(size)
    {
      IsPowerOf2Correct(request);
      RoundUp2Correct(request);
      var n: uint32 := request;
      if !IsPowerOf2(request) {
        n := RoundUp2(request);
      }
      size := n;
      data := new byte[n];
      readPos, writePos, finishPos := 0, 0, 0;
    }

    /** The two copies of a put: up to the end of the buffer, then the rest
        at its beginning. */
    method CopyBytesIn(start: nat, buffer: seq<byte>, len: nat)
      requires start < data.Length && len <= |buffer| && len <= data.Length
      modifies data
      ensures data[..] == CopyIn(old(data[..]), start, buffer[..len])
    {
      var l := if len > data.Length - start then data.Length - start else len;
      if l > 0 {
        forall k | 0 <= k < l { data[start + k] := buffer[k]; }
      }
      if len > l {
        forall k | 0 <= k < len - l { data[k] := buffer[l + k]; }
      }
    }

    /** The two copies of a get. */
    method CopyBytesOut(start: nat, buffer: array<byte>, n: nat)
      requires start < data.Length && n <= buffer.Length && n <= data.Length && buffer != data
      modifies buffer
      ensures buffer[..n] == Window(data[..], start, n)
      ensures buffer[n..] == old(buffer[n..])
    {
      var l := if n > data.Length - start then data.Length - start else n;
      if l > 0 {
        forall k | 0 <= k < l { buffer[k] := data[start + k]; }
      }
      if n > l {
        forall k | 0 <= k < n - l { buffer[l + k] := data[k]; }
      }
      assert forall i :: 0 <= i < n ==> buffer[i] == data[Wrap(start + i, data.Length)];
    }

    /** Queue all of the first `len` bytes or none of them: one byte of the
        ring always stays unused. */
    method Put(buffer: seq<byte>, len: uint32) returns (n: uint32)
      requires Valid() && len <= |buffer|
      modifies this`writePos, this`finishPos, data
      ensures Valid() && readPos == old(readPos)
      ensures if |old(Contents())| + len < size
              then n == len && Contents() == old(Contents()) + buffer[..len]
              else n == 0 && Contents() == old(Contents())
    {
      ghost var d, used := data[..], Used();
      var writeOld := writePos;
      if size > 0 { SizesAreDistances(writeOld, readPos, size); }
      if RestSize(writeOld, readPos, size) <= len {
        return 0;
      }
      AdvanceDistance(writeOld, len, readPos, size);
      AdvanceDistance(writeOld, 0, readPos, size);
      writePos := Advance(writeOld, len, size);
      CopyBytesIn(Advance(writeOld, 0, size), buffer, len);
      finishPos := writePos;
      assert writeOld == Wrap(readPos + used, size);
      WindowCopyIn(d, readPos, used, buffer[..len]);
      n := len;
    }

    /** Take the oldest bytes, as many as are queued and fit. */
    method Get(buffer: array<byte>, len: uint32) returns (n: uint32)
      requires Valid() && len <= buffer.Length && buffer != data
      modifies this`readPos, buffer
      ensures Valid()
      ensures n == if len < |old(Contents())| then len else |old(Contents())|
      ensures buffer[..n] == old(Contents())[..n] && buffer[n..] == old(buffer[n..])
      ensures Contents() == old(Contents())[n..]
    {
      var writeLocal, readOld := finishPos, readPos;
      if size > 0 { SizesAreDistances(writeLocal, readOld, size); }
      var used := UsedSize(writeLocal, readOld, size);
      n := if len > used then used else len;
      if n == 0 {
        return;
      }
      RetireDistance(writeLocal, readOld, n, size);
      RetireDistance(writeLocal, readOld, 0, size);
      CopyBytesOut(Advance(readOld, 0, size), buffer, n);
      WindowGet(data[..], readOld, used, n);
      readPos := Advance(readOld, n, size);
    }
  }
}
