/** The hash of the cuckoo table's keys, the CRC-32C of their bytes; and tables hashed
    this way that refuse what they are given. */
module KeyHash {
  import opened Bits
  import opened Crc32c
  import opened CuckooSearch
  import opened CuckooModel
  import opened CuckooOps
  import opened CuckooRuns
  import opened CuckooRefusal
  import opened CuckooSamples

  const CUCKOO_HASH_INIT_VAL: uint32 := 7

  function KeyHash(key: seq<byte>): uint32 {
    Hash(key, CUCKOO_HASH_INIT_VAL)
  }

  /** `hash`. */
  method HashOf(key: seq<byte>) returns (sig: uint32)
    ensures sig == BitSerial(Padded(key), 7)
  {
    sig := HashCrc32c(key, CUCKOO_HASH_INIT_VAL);
  }

  /** The key of four bytes with a given hash. */
  ghost function KeyFor(h: uint32): (key: seq<byte>)
    ensures |key| == 4 && KeyHash(key) == h
  {
    KeyExists(h);
    var key: seq<byte> :| |key| == 4 && KeyHash(key) == h;
    key
  }

  lemma KeyExists(h: uint32)
    ensures exists key: seq<byte> :: |key| == 4 && KeyHash(key) == h
  {
    var x := WordReaches([], [], CUCKOO_HASH_INIT_VAL, h);
    assert [] + x + [] == x;
  }

  ghost function SampleKey(i: nat): (key: seq<byte>)
    ensures |key| == 4
  {
    KeyFor(if i <= 16 then SampleHash(i) else 0)
  }

  ghost function Samples(): Filling<seq<byte>, int> {
    Filling(KeyHash, SampleKey, i => i, [], 0, 4, 16)
  }

  /** A table of four-byte keys, reached from a new one by additions, that refuses a new
      key with a quarter of the ids free, an empty secondary bucket, and a displacement
      path that would make room. */
  lemma RefusedBesideRoom()
    returns (ts: seq<Table<seq<byte>, int>>, ops: seq<Op<seq<byte>, int>>, rs: seq<Result<int>>, k: seq<byte>)
    ensures Reached(ts, KeyHash, ops, rs) && |ops| == 12 && Inv(ts[12], KeyHash) && |k| == 4
    ensures var t := ts[12];
            && k !in Abs(t) && |t.free| == 4 && |t.keys| - 1 == 16
            && FirstEmpty(t.slots, BucketOf(Secondary(KeyHash(k)), t.nb), 0) == 0
            && PathFrom(t.slots, t.nb, BucketOf(KeyHash(k), t.nb), [1, 8, 12])
            && Add(t, KeyHash, k, 0).1 == -28
  {
    k := SampleKey(16);
    SampleIs(Samples());
    ts, ops, rs := RefusedBesidePath(Samples(), 0);
  }

  /** A full table of four-byte keys that refuses to update one of them. */
  lemma UpdateRefused()
    returns (ts: seq<Table<seq<byte>, int>>, ops: seq<Op<seq<byte>, int>>, rs: seq<Result<int>>, k: seq<byte>)
    ensures Reached(ts, KeyHash, ops, rs) && |ops| == 16 && Inv(ts[16], KeyHash) && |k| == 4
    ensures k in Abs(ts[16]) && Abs(ts[16])[k].data == 0 && Add(ts[16], KeyHash, k, 1) == (ts[16], -28)
  {
    k := SampleKey(0);
    SampleIs(Samples());
    ts, ops, rs := FullTableRefusesUpdate(Samples(), 1);
  }
}
