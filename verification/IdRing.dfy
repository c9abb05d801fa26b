/** The byte ring used as a queue of 32-bit ids, each put and got as four bytes
    in little-endian order. */
module IdRing {
  import opened Bits
  import opened RingBuffer

  function Bytes(x: uint32): (b: seq<byte>)
    ensures |b| == 4
  {
    [x % 256, x / 256 % 256, x / 65536 % 256, x / 16777216]
  }

  function Value(b: seq<byte>): uint32
    requires |b| == 4
  {
    b[0] as int + 256 * (b[1] as int) + 65536 * (b[2] as int) + 16777216 * (b[3] as int)
  }

  lemma ValueOfBytes(x: uint32)
    ensures Value(Bytes(x)) == x
  {
    var y := x / 256;
    var z := y / 256;
    assert x == x % 256 + 256 * y && y == y % 256 + 256 * z && z == z % 256 + 256 * (z / 256);
    assert x / 65536 == z && x / 16777216 == z / 256;
  }

  function Encode(ids: seq<uint32>): (b: seq<byte>)
    ensures |b| == 4 * |ids|
  {
    if ids == [] then [] else Bytes(ids[0]) + Encode(ids[1..])
  }

  lemma {:induction false} EncodeAppend(ids: seq<uint32>, id: uint32)
    ensures Encode(ids + [id]) == Encode(ids) + Bytes(id)
  {
    if ids == [] {
      assert ids + [id] == [id];
    } else {
      EncodeAppend(ids[1..], id);
      assert (ids + [id])[1..] == ids[1..] + [id];
    }
  }

  /** The ring holds exactly the given ids, oldest first. */
  ghost predicate Queues(r: RingBuffer, ids: seq<uint32>)
    reads r, r.data
  {
    r.Valid() && r.Contents() == Encode(ids)
  }

  /** An id is queued whole or dropped: a ring never holds part of one. */
  method PutId(r: RingBuffer, id: uint32, ghost ids: seq<uint32>) returns (n: uint32)
    requires Queues(r, ids)
    modifies r, r.data
    ensures if 4 * |ids| + 4 < r.size then n == 4 && Queues(r, ids + [id]) else n == 0 && Queues(r, ids)
  {
    n := r.Put(Bytes(id), 4);
    EncodeAppend(ids, id);
  }

  method GetId(r: RingBuffer, ghost ids: seq<uint32>) returns (n: uint32, id: uint32)
    requires Queues(r, ids)
    modifies r
    ensures if ids == [] then n == 0 && Queues(r, []) else n == 4 && id == ids[0] && Queues(r, ids[1..])
  {
    var buffer := new byte[4];
    n := r.Get(buffer, 4);
    id := 0;
    if n == 4 {
      id := Value(buffer[..]);
      ValueOfBytes(ids[0]);
      assert buffer[..] == buffer[..4] == Bytes(ids[0]);
    }
  }
}
