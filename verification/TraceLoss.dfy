/** A trace slot that is lost: five records suffice. */
module TraceLoss {
  import opened Bits
  import opened Crc32c
  import opened CuckooSearch
  import opened CuckooModel
  import opened CuckooOps
  import opened CuckooRuns
  import opened CuckooRefusal
  import opened CuckooSamples
  import KeyHash
  import opened TraceTable

  /** The bytes of a key, those between its two fields being zero. */
  function IdBytes(id: TraceId): seq<byte> {
    BytesOf(id.portid, 4) + Zeros(4) + BytesOf(id.probeid, 8)
  }

  function IdHash(id: TraceId): uint32 { KeyHash.KeyHash(IdBytes(id)) }

  /** A probe of port 0 with a given hash. */
  lemma ProbeExists(h: uint32) returns (w: nat)
    ensures IdHash(TraceId(0, w)) == h
  {
    var a := BytesOf(0, 4) + Zeros(4);
    var x := WordReaches(a, Zeros(4), KeyHash.CUCKOO_HASH_INIT_VAL, h);
    w := WordOf(x);
    WordOfZeros(x, 4);
    BytesOfWord(x + Zeros(4));
    assert IdBytes(TraceId(0, w)) == a + x + Zeros(4);
  }

  ghost function Probe(h: uint32): (w: nat)
    ensures IdHash(TraceId(0, w)) == h
  {
    assert exists w: nat :: IdHash(TraceId(0, w)) == h by { var w := ProbeExists(h); }
    var w: nat :| IdHash(TraceId(0, w)) == h;
    w
  }

  /** Hashes of which both buckets are 0 in a table of 4096. */
  function TrapHash(i: nat): uint32
    requires i < 5
  {
    4096 * (4096 * (i + 1) - 1)
  }

  lemma {:induction false} XorShl(x: nat, y: nat, k: nat)
    ensures Xor(Shl(x, k), Shl(y, k)) == Shl(Xor(x, y), k)
    decreases k
  {
    if k > 0 {
      XorShl(x, y, k - 1);
      XorDouble(Shl(x, k - 1), Shl(y, k - 1));
    }
  }

  lemma XorDouble(x: nat, y: nat)
    ensures Xor(2 * x, 2 * y) == 2 * Xor(x, y)
  {
    XorHalf(2 * x, 2 * y);
  }

  lemma XorMultiples(x: nat, y: nat)
    ensures Xor(4096 * x, 4096 * y) % 4096 == 0
  {
    XorShl(x, y, 12);
    Shl12(x);
    Shl12(y);
    Shl12(Xor(x, y));
  }

  lemma Shl12(x: nat)
    ensures Shl(x, 12) == 4096 * x
  {
    assert Pow2(12) == 4096;
    ShlIs(x, 12);
  }

  lemma Low12(h: nat)
    ensures And(h, 4095) == h % 4096
  {
    assert Pow2(12) == 4096;
    AndMask(h, 12);
  }

  lemma MultipleBucket(x: uint32)
    requires x % 4096 == 0
    ensures BucketOf(x, 4096) == 0
  {
    Low12(x);
  }

  lemma TrapBuckets(i: nat)
    requires i < 5
    ensures BucketOf(TrapHash(i), 4096) == 0 && BucketOf(Secondary(TrapHash(i)), 4096) == 0
  {
    MultipleBucket(TrapHash(i));
    SecondaryBucket(TrapHash(i), 4096 * (i + 1) - 1, i + 1);
  }

  lemma SecondaryBucket(h: uint32, tag: nat, q: nat)
    requires h == 4096 * tag && tag + 1 == 4096 * q
    ensures BucketOf(Secondary(h), 4096) == 0
  {
    SecondaryIs(h, tag);
    MixIs(tag);
    assert (tag + 1) * 0x5bd1e995 == 4096 * (q * 0x5bd1e995);
    MixMultiple(q * 0x5bd1e995);
    XorMultiples(tag, q * 0x5bd1e995 % 0x10_0000);
    MultipleBucket(Secondary(h));
  }

  lemma MixMultiple(k: nat)
    ensures (4096 * k) % 0x1_0000_0000 == 4096 * (k % 0x10_0000)
  {
    ModUnique(4096 * k, k / 0x10_0000, 4096 * (k % 0x10_0000), 0x1_0000_0000);
  }

  // ---- five keys of one bucket -----------------------------------------------------------------

  /** Traces that all belong in bucket 0 and nowhere else, in a new table of the size the
      program asks for. */
  ghost predicate IsTrap(f: Filling<TraceId, nat>) {
    && f.nb == 4096 && f.m == TRACE_MAX
    && (forall i: nat :: i < 5 ==> Trapped(f.hash(f.key(i))) && f.datum(i) == i)
    && (forall i: nat, j: nat :: i < j < 5 ==> f.key(i) != f.key(j))
  }

  ghost predicate Trapped(h: uint32) {
    BucketOf(h, 4096) == 0 && BucketOf(Secondary(h), 4096) == 0
  }

  /** The records from number n on. */
  ghost function TrapRecords(f: Filling<TraceId, nat>, n: nat): seq<Record>
    requires n <= 5
  {
    seq(5 - n, i requires 0 <= i < 5 - n => TrapRecord(f.key(n + i)))
  }

  ghost function TrapRecord(k: TraceId): (r: Record)
    ensures KeyOf(r) == k
  {
    Record(0, 0, k.portid, k.probeid, ZERO_TIME)
  }

  /** The trace slots from n on. */
  ghost function Pool(n: nat): seq<uint32>
    requires n < TRACE_MAX
  {
    seq(TRACE_MAX - 1 - n, i requires 0 <= i < TRACE_MAX - 1 - n => n + i)
  }

  lemma TrapInOrder(f: Filling<TraceId, nat>)
    requires IsTrap(f)
    ensures InOrder(f, 4)
  {
    forall i: nat | i < 4 ensures BucketOf(f.hash(f.key(i)), f.nb) == i / 4 {
      assert Trapped(f.hash(f.key(i)));
    }
  }

  /** A record of a new key that the hash table accepts. */
  lemma RecordTaken(t: Table<TraceId, nat>, hash: TraceId -> uint32, free: seq<uint32>, r: Record,
                    k: TraceId, d: nat, t': Table<TraceId, nat>, ret: int)
    requires Inv(t, hash) && k !in Abs(t) && free != [] && KeyOf(r) == k && free[0] == d
    requires Add(t, hash, k, d) == (t', ret) && ret >= 0
    ensures TableAfter(t, hash, free, r) == t' && PoolAfter(t, free, r) == free[1..] && !Loses(t, hash, free, r)
  {
    RefusedWithoutPlace(t, hash, KeyOf(r), free[0]);
  }

  /** The first four records fill bucket 0. */
  lemma TrapFills(f: Filling<TraceId, nat>, n: nat, t: Table<TraceId, nat>, r: Record)
    requires n < 4 && IsTrap(f) && InOrder(f, 4) && t == Packed(f, n) && KeyOf(r) == f.key(n)
    ensures Inv(t, f.hash) && TableAfter(t, f.hash, Pool(n), r) == Packed(f, n + 1)
    ensures PoolAfter(t, Pool(n), r) == Pool(n + 1) && !Loses(t, f.hash, Pool(n), r)
  {
    PackedInv(f, n);
    PackedStep(f, n, n + 1);
    PackedLacks(f, n, f.key(n));
    RecordTaken(t, f.hash, Pool(n), r, f.key(n), f.datum(n), Packed(f, n + 1), n);
    PoolNext(n);
  }

  lemma PoolNext(n: nat)
    requires n + 1 < TRACE_MAX
    ensures |Pool(n)| > 0 && Pool(n)[0] == n && Pool(n)[1..] == Pool(n + 1)
  {}

  lemma RecordsFrom(f: Filling<TraceId, nat>, n: nat)
    requires n < 5
    ensures TrapRecords(f, n) == [TrapRecord(f.key(n))] + TrapRecords(f, n + 1)
  {}

  /** Its entries have nowhere else to go. */
  lemma TrapCloses(f: Filling<TraceId, nat>)
    requires IsTrap(f)
    ensures !HasPlace(Packed(f, 4).slots, 4096, 0)
  {
    var slots := Packed(f, 4).slots;
    forall i: nat | i < 4 ensures !Empty(slots[At(0, i)]) && AltBucket(slots, 4096, At(0, i)) == 0 {
      assert Trapped(f.hash(f.key(i)));
      EntryNotEmpty(f.hash, f.key(i), i + 1);
    }
    StuckBucket(slots, 4096, 0);
  }

  lemma TrapLoses(f: Filling<TraceId, nat>, t: Table<TraceId, nat>, r: Record)
    requires IsTrap(f) && InOrder(f, 4) && t == Packed(f, 4) && KeyOf(r) == f.key(4)
    ensures Inv(t, f.hash) && Loses(t, f.hash, Pool(4), r)
  {
    PackedInv(f, 4);
    PackedLacks(f, 4, f.key(4));
    TrapCloses(f);
    assert Trapped(f.hash(f.key(4)));
  }

  lemma LossesStep(t: Table<TraceId, nat>, hash: TraceId -> uint32, free: seq<uint32>, r: Record, rs: seq<Record>,
                   t': Table<TraceId, nat>, free': seq<uint32>)
    requires Inv(t, hash) && TableAfter(t, hash, free, r) == t' && PoolAfter(t, free, r) == free'
    ensures Losses(t, hash, free, [r] + rs) == (if Loses(t, hash, free, r) then 1 else 0) + Losses(t', hash, free', rs)
  {
    assert ([r] + rs)[1..] == rs;
  }

  lemma TrapGoesOn(f: Filling<TraceId, nat>, n: nat)
    requires n < 4 && IsTrap(f) && InOrder(f, 4)
    ensures Inv(Packed(f, n), f.hash) && Inv(Packed(f, n + 1), f.hash)
    ensures Losses(Packed(f, n), f.hash, Pool(n), TrapRecords(f, n))
         == Losses(Packed(f, n + 1), f.hash, Pool(n + 1), TrapRecords(f, n + 1))
  {
    var r := TrapRecord(f.key(n));
    PackedInv(f, n + 1);
    TrapFills(f, n, Packed(f, n), r);
    RecordsFrom(f, n);
    LossesStep(Packed(f, n), f.hash, Pool(n), r, TrapRecords(f, n + 1), Packed(f, n + 1), Pool(n + 1));
  }

  lemma TrapEnds(f: Filling<TraceId, nat>)
    requires IsTrap(f) && InOrder(f, 4)
    ensures Inv(Packed(f, 4), f.hash) && Losses(Packed(f, 4), f.hash, Pool(4), TrapRecords(f, 4)) == 1
  {
    var t, r := Packed(f, 4), TrapRecord(f.key(4));
    TrapLoses(f, t, r);
    RecordsFrom(f, 4);
    LossesStep(t, f.hash, Pool(4), r, [], TableAfter(t, f.hash, Pool(4), r), PoolAfter(t, Pool(4), r));
  }

  lemma {:induction false} TrapLosses(f: Filling<TraceId, nat>, n: nat)
    requires n <= 4 && IsTrap(f) && InOrder(f, 4)
    ensures Inv(Packed(f, n), f.hash) && Losses(Packed(f, n), f.hash, Pool(n), TrapRecords(f, n)) == 1
    decreases 4 - n
  {
    if n == 4 {
      TrapEnds(f);
    } else {
      TrapLosses(f, n + 1);
      TrapGoesOn(f, n);
    }
  }

  ghost function TrapKey(i: nat): TraceId {
    TraceId(0, Probe(if i < 5 then TrapHash(i) else 0))
  }

  ghost function Trap(): Filling<TraceId, nat> {
    Filling(IdHash, TrapKey, i => i, TraceId(0, 0), 0, 4096, TRACE_MAX)
  }

  lemma TrapIs()
    ensures IsTrap(Trap())
  {
    forall i: nat | i < 5 ensures IdHash(TrapKey(i)) == TrapHash(i) && Trapped(IdHash(TrapKey(i))) {
      TrapBuckets(i);
    }
  }

  /** Five records, read into a new table with its full pool, lose a trace slot. */
  lemma SlotLost() returns (t: Table<TraceId, nat>, free: seq<uint32>, rs: seq<Record>)
    ensures IsNew(t) && t.nb == 4096 && |t.keys| - 1 == TRACE_MAX && Inv(t, IdHash) && Abs(t) == map[]
    ensures free == seq(TRACE_MAX - 1, i => i) && |rs| == 5 && Located(rs)
    ensures |PoolOf(t, IdHash, free, rs)| + |Abs(TableOf(t, IdHash, free, rs))| == TRACE_MAX - 2
  {
    TrapIs();
    t, free, rs := LostBy(Trap());
    assert free == seq(TRACE_MAX - 1, i => i);
  }

  lemma LostBy(f: Filling<TraceId, nat>) returns (t: Table<TraceId, nat>, free: seq<uint32>, rs: seq<Record>)
    requires IsTrap(f)
    ensures IsNew(t) && t.nb == 4096 && |t.keys| - 1 == TRACE_MAX && Inv(t, f.hash) && Abs(t) == map[]
    ensures free == Pool(0) && |rs| == 5 && Located(rs)
    ensures |PoolOf(t, f.hash, free, rs)| + |Abs(TableOf(t, f.hash, free, rs))| == TRACE_MAX - 2
  {
    t, free, rs := Packed(f, 0), Pool(0), TrapRecords(f, 0);
    PackedNew(f);
    EmptyTable(t, f.hash);
    TrapInOrder(f);
    TrapLosses(f, 0);
    SlotsConserved(t, f.hash, free, rs);
  }
}
