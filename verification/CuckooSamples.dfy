/** Tables filled by additions, with every slot known, and what they refuse. */
module CuckooSamples {
  import opened Bits
  import opened CuckooSearch
  import opened CuckooModel
  import opened CuckooOps
  import opened CuckooRuns
  import opened CuckooRefusal

  // ---- tables filled bucket by bucket ---------------------------------------------------------

  /** A hash function, keys and data in an order, what unused places of the key store
      hold, and the numbers of buckets and ids. */
  datatype Filling<!K, D> =
    Filling(hash: K -> uint32, key: nat -> K, datum: nat -> D, noKey: K, noDatum: D, nb: nat, m: nat)

  predicate CanHold<K, D>(f: Filling<K, D>, n: nat) {
    n <= f.m < 0x1_0000_0000 && n <= 4 * f.nb && 0 < f.nb
  }

  /** The keys 0 to n-1 have different values and belong in the first buckets in their
      order, four in each. */
  ghost predicate InOrder<K, D>(f: Filling<K, D>, n: nat)
    requires f.nb > 0
  {
    && (forall i: nat :: i < n ==> BucketOf(f.hash(f.key(i)), f.nb) == i / 4)
    && (forall i: nat, j: nat :: i < j < n ==> f.key(i) != f.key(j))
  }

  /** The table with the first n keys, each at the slot of its number. */
  ghost function Packed<K, D>(f: Filling<K, D>, n: nat): Table<K, D>
    requires CanHold(f, n)
  {
    Table(f.nb,
          seq(4 * f.nb, p requires 0 <= p < 4 * f.nb =>
            if p < n then Entry(f.hash, f.key(p), p + 1) else Slot(0, 0, 0)),
          seq(f.m + 1, id requires 0 <= id < f.m + 1 => if 1 <= id <= n then f.key(id - 1) else f.noKey),
          seq(f.m + 1, id requires 0 <= id < f.m + 1 => if 1 <= id <= n then f.datum(id - 1) else f.noDatum),
          seq(f.m - n, i requires 0 <= i < f.m - n => n + 1 + i))
  }

  ghost predicate IsNew<K, D>(t: Table<K, D>) {
    && Shape(t) && (forall p :: 0 <= p < |t.slots| ==> Empty(t.slots[p]))
    && t.free == seq(|t.keys| - 1, i => i + 1)
  }

  lemma PackedFind<K, D>(f: Filling<K, D>, n: nat, k: K)
    requires CanHold(f, n) && forall i: nat :: i < n ==> f.key(i) != k
    ensures Find(Packed(f, n), k) == None
  {
    var t := Packed(f, n);
    forall p: nat ensures !Holds(t, p, k) {
      if p < |t.slots| && p < n { assert t.keys[t.slots[p].keyIdx] == f.key(p); }
    }
  }

  lemma PackedRoom<K, D>(f: Filling<K, D>, n: nat)
    requires CanHold(f, n) && n < 4 * f.nb
    ensures var slots := Packed(f, n).slots;
            At(n / 4, 3) < |slots| && FirstEmpty(slots, n / 4, 0) == n % 4
  {
    var slots := Packed(f, n).slots;
    forall i: nat | i < 4 ensures Empty(slots[At(n / 4, i)]) <==> i >= n % 4 {
      if i < n % 4 { EntryNotEmpty(f.hash, f.key(At(n / 4, i)), At(n / 4, i) + 1); }
    }
  }

  lemma EntryNotEmpty<K>(hash: K -> uint32, k: K, id: uint32)
    ensures !Empty(Entry(hash, k, id))
  {
    SecondaryDiffers(hash(k));
  }

  lemma PackedStep<K, D>(f: Filling<K, D>, n: nat, n': nat)
    requires n' == n + 1 && CanHold(f, n') && InOrder(f, n')
    requires Inv(Packed(f, n), f.hash)
    ensures Add(Packed(f, n), f.hash, f.key(n), f.datum(n)) == (Packed(f, n'), n)
  {
    PackedRoomFor(f, n, n');
    AddInRoom(Packed(f, n), f.hash, f.key(n), f.datum(n), n / 4, n % 4, Packed(f, n'));
  }

  lemma PackedRoomFor<K, D>(f: Filling<K, D>, n: nat, n': nat)
    requires n' == n + 1 && CanHold(f, n') && InOrder(f, n')
    ensures RoomFor(Packed(f, n), f.hash, f.key(n), f.datum(n), n / 4, n % 4, Packed(f, n'))
    ensures Packed(f, n).free[0] == n + 1
  {
    PackedFind(f, n, f.key(n));
    PackedRoom(f, n);
    PackedSlots(f, n);
    PackedStore(f, n);
  }

  lemma PackedSlots<K, D>(f: Filling<K, D>, n: nat)
    requires CanHold(f, n + 1)
    ensures Packed(f, n + 1).slots == Packed(f, n).slots[n := Entry(f.hash, f.key(n), n + 1)]
  {}

  lemma PackedStore<K, D>(f: Filling<K, D>, n: nat)
    requires CanHold(f, n + 1)
    ensures var t, t' := Packed(f, n), Packed(f, n + 1);
            && t'.keys == t.keys[n + 1 := f.key(n)] && t'.datas == t.datas[n + 1 := f.datum(n)]
            && |t.free| > 0 && t.free[0] == n + 1 && t'.free == t.free[1..]
  {}

  /** Index i of bucket b is the place for a key that is absent, and t' has it there. */
  ghost predicate RoomFor<K, D>(t: Table<K, D>, hash: K -> uint32, k: K, d: D, b: nat, i: nat, t': Table<K, D>) {
    && Shape(t) && Find(t, k) == None && |t.free| > 0 && t.free[0] < |t.keys| && t'.nb == t.nb
    && b == BucketOf(hash(k), t.nb) && i < 4 && FirstEmpty(t.slots, b, 0) == i
    && t'.slots == t.slots[At(b, i) := Entry(hash, k, t.free[0])] && t'.free == t.free[1..]
    && t'.keys == t.keys[t.free[0] := k] && t'.datas == t.datas[t.free[0] := d]
  }

  lemma AddInRoom<K, D>(t: Table<K, D>, hash: K -> uint32, k: K, d: D, b: nat, i: nat, t': Table<K, D>)
    requires Inv(t, hash) && RoomFor(t, hash, k, d, b, i, t')
    ensures Add(t, hash, k, d) == (t', t.free[0] as int - 1)
  {
    assert HasPlace(t.slots, t.nb, b) && PlaceIn(t.slots, t.nb, b, Entry(hash, k, t.free[0])) == t'.slots;
    InsertIs(t, hash, k, d, t', true);
  }

  lemma PackedInv<K, D>(f: Filling<K, D>, n: nat)
    requires CanHold(f, n) && InOrder(f, n)
    ensures Inv(Packed(f, n), f.hash)
  {
    var t := Packed(f, n);
    PackedPlaced(f, n);
    PackedIds(f, n);
    PackedKeys(f, n);
    PackedFree(f, n);
    InvOf(t, f.hash, t.slots, t.keys, t.free);
  }

  lemma PackedSlot<K, D>(f: Filling<K, D>, n: nat, p: nat)
    requires CanHold(f, n) && InOrder(f, n) && Occupied(Packed(f, n).slots, p)
    ensures p < n && Packed(f, n).slots[p].keyIdx == p + 1
    ensures Placed(Packed(f, n).slots[p], p, f.nb, Packed(f, n).keys, f.hash)
  {
    var t := Packed(f, n);
    assert p < n;
    assert t.slots[p] == Entry(f.hash, f.key(p), p + 1) && t.keys[p + 1] == f.key(p);
    assert BucketOf(f.hash(f.key(p)), f.nb) == p / 4;
  }

  lemma PackedPlaced<K, D>(f: Filling<K, D>, n: nat)
    requires CanHold(f, n) && InOrder(f, n)
    ensures AllPlaced(Packed(f, n).slots, f.nb, Packed(f, n).keys, f.hash)
  {
    var slots := Packed(f, n).slots;
    forall p: nat | Occupied(slots, p) ensures Placed(slots[p], p, f.nb, Packed(f, n).keys, f.hash) {
      PackedSlot(f, n, p);
    }
  }

  lemma PackedIds<K, D>(f: Filling<K, D>, n: nat)
    requires CanHold(f, n) && InOrder(f, n)
    ensures IdsUnique(Packed(f, n).slots)
  {
    var slots := Packed(f, n).slots;
    forall p: nat, q: nat | Occupied(slots, p) && Occupied(slots, q) && p != q
      ensures slots[p].keyIdx != slots[q].keyIdx
    {
      PackedSlot(f, n, p);
      PackedSlot(f, n, q);
    }
  }

  lemma PackedLive<K, D>(f: Filling<K, D>, n: nat)
    requires CanHold(f, n)
    ensures forall id: uint32 :: id in Live(Packed(f, n).slots) <==> 1 <= id <= n
  {
    var slots := Packed(f, n).slots;
    forall p: nat | p < |slots| && !Empty(slots[p]) ensures 1 <= slots[p].keyIdx <= n {
      assert p < n ==> slots[p] == Entry(f.hash, f.key(p), p + 1);
    }
    forall id: uint32 | 1 <= id <= n ensures id in Live(slots) {
      EntryNotEmpty(f.hash, f.key(id - 1), id);
      assert id - 1 < |slots| && !Empty(slots[id - 1]) && slots[id - 1].keyIdx == id;
    }
  }

  lemma PackedKeys<K, D>(f: Filling<K, D>, n: nat)
    requires CanHold(f, n) && InOrder(f, n)
    ensures KeysUnique(Live(Packed(f, n).slots), Packed(f, n).keys)
  {
    var live, keys := Live(Packed(f, n).slots), Packed(f, n).keys;
    PackedLive(f, n);
    forall i, j | i in live && j in live && i != j && i < |keys| && j < |keys| ensures keys[i] != keys[j] {
      KeysDiffer(f, n, if i < j then i else j, if i < j then j else i);
    }
  }

  lemma KeysDiffer<K, D>(f: Filling<K, D>, n: nat, i: uint32, j: uint32)
    requires CanHold(f, n) && InOrder(f, n) && 1 <= i < j <= n
    ensures Packed(f, n).keys[i] != Packed(f, n).keys[j]
  {
    assert Packed(f, n).keys[i] == f.key(i - 1) && Packed(f, n).keys[j] == f.key(j - 1);
  }

  lemma PackedFree<K, D>(f: Filling<K, D>, n: nat)
    requires CanHold(f, n)
    ensures FreeExact(Packed(f, n).free, Live(Packed(f, n).slots), f.m + 1)
  {
    var free := Packed(f, n).free;
    PackedLive(f, n);
    forall id: uint32 | n < id <= f.m ensures id in free {
      assert free[id - n - 1] == id;
    }
  }

  lemma PackedNew<K, D>(f: Filling<K, D>)
    requires CanHold(f, 0)
    ensures IsNew(Packed(f, 0)) && Inv(Packed(f, 0), f.hash)
  {
    EmptyTable(Packed(f, 0), f.hash);
  }

  /** A table that adds, one after the other, bring a new one to. */
  ghost predicate Reached<K, D>(ts: seq<Table<K, D>>, hash: K -> uint32, ops: seq<Op<K, D>>, rs: seq<Result<D>>) {
    IsRun(ts, hash, ops, rs) && IsNew(ts[0]) && forall i :: 0 <= i < |ops| ==> ops[i].AddOp?
  }

  /** Adding key i brings the table on by one. */
  lemma PackedMoves<K, D>(f: Filling<K, D>, n: nat, i: nat, i': nat,
                          t: Table<K, D>, op: Op<K, D>, t': Table<K, D>, res: Result<D>)
    requires i' == i + 1 && i < n && CanHold(f, n) && InOrder(f, n)
    requires t == Packed(f, i) && t' == Packed(f, i') && op == AddOp(f.key(i), f.datum(i)) && res == Result(i, None)
    ensures Inv(t, f.hash) && Steps(t, f.hash, op, t', res)
  {
    PackedInv(f, i);
    PackedStep(f, i, i');
  }

  /** Adding the keys one after the other to a new table fills it in order. */
  lemma {:induction false} PackedRun<K, D>(f: Filling<K, D>, n: nat)
    returns (ts: seq<Table<K, D>>, ops: seq<Op<K, D>>, rs: seq<Result<D>>)
    requires CanHold(f, n) && InOrder(f, n)
    ensures Reached(ts, f.hash, ops, rs) && |ops| == n && ts[n] == Packed(f, n) && Inv(ts[n], f.hash)
    decreases n
  {
    if n == 0 {
      PackedNew(f);
      ts, ops, rs := [Packed(f, 0)], [], [];
    } else {
      ts, ops, rs := PackedRun(f, n - 1);
      ts, ops, rs := PackedLonger(f, n - 1, n, ts, ops, rs);
    }
  }

  lemma PackedLonger<K, D>(f: Filling<K, D>, i: nat, n: nat, ts: seq<Table<K, D>>, ops: seq<Op<K, D>>,
                           rs: seq<Result<D>>)
    returns (ts': seq<Table<K, D>>, ops': seq<Op<K, D>>, rs': seq<Result<D>>)
    requires n == i + 1 && CanHold(f, n) && InOrder(f, n)
    requires Reached(ts, f.hash, ops, rs) && |ops| == i && ts[i] == Packed(f, i)
    ensures Reached(ts', f.hash, ops', rs') && |ops'| == n && ts'[n] == Packed(f, n) && Inv(ts'[n], f.hash)
  {
    var op, t, res := AddOp(f.key(i), f.datum(i)), Packed(f, n), Result(i, None);
    PackedMoves(f, n, i, n, ts[i], op, t, res);
    PackedInv(f, n);
    ts', ops', rs' := RunAppend(ts, f.hash, ops, rs, op, t, res);
  }

  lemma RunAppend<K, D>(ts: seq<Table<K, D>>, hash: K -> uint32, ops: seq<Op<K, D>>, rs: seq<Result<D>>,
                        op: Op<K, D>, t: Table<K, D>, res: Result<D>)
    returns (ts': seq<Table<K, D>>, ops': seq<Op<K, D>>, rs': seq<Result<D>>)
    requires IsRun(ts, hash, ops, rs) && Inv(ts[|ops|], hash) && Steps(ts[|ops|], hash, op, t, res)
    ensures ts' == ts + [t] && ops' == ops + [op] && rs' == rs + [res] && IsRun(ts', hash, ops', rs')
  {
    ts', ops', rs' := ts + [t], ops + [op], rs + [res];
    var n := |ops|;
    assert ts'[0] == ts[0] && ts'[n] == ts[n] && ts'[n + 1] == t && ops'[n] == op && rs'[n] == res;
    forall i | 0 <= i < n + 1 && Inv(ts'[i], hash) ensures Steps(ts'[i], hash, ops'[i], ts'[i + 1], rs'[i]) {
      if i < n { StepAt(ts, hash, ops, rs, i, ts'[i], ops'[i], ts'[i + 1], rs'[i]); }
    }
  }

  lemma StepAt<K, D>(ts: seq<Table<K, D>>, hash: K -> uint32, ops: seq<Op<K, D>>, rs: seq<Result<D>>, i: nat,
                     t: Table<K, D>, op: Op<K, D>, t': Table<K, D>, res: Result<D>)
    requires IsRun(ts, hash, ops, rs) && i < |ops| && Inv(ts[i], hash)
    requires t == ts[i] && op == ops[i] && t' == ts[i + 1] && res == rs[i]
    ensures Steps(t, hash, op, t', res)
  {}

  lemma PackedHas<K, D>(f: Filling<K, D>, n: nat, i: nat)
    requires i < n && CanHold(f, n) && InOrder(f, n)
    ensures var t := Packed(f, n); f.key(i) in Abs(t) && Abs(t)[f.key(i)].data == f.datum(i)
  {
    var t := Packed(f, n);
    PackedInv(f, n);
    PackedEntry(f, n, i);
    HeldInMap(t, f.hash, i);
  }

  lemma PackedEntry<K, D>(f: Filling<K, D>, n: nat, i: nat)
    requires i < n && CanHold(f, n)
    ensures var t := Packed(f, n);
            && Occupied(t.slots, i) && t.slots[i].keyIdx == i + 1
            && t.keys[i + 1] == f.key(i) && t.datas[i + 1] == f.datum(i)
  {
    EntryNotEmpty(f.hash, f.key(i), i + 1);
  }

  lemma HeldInMap<K, D>(t: Table<K, D>, hash: K -> uint32, p: nat)
    requires Inv(t, hash) && Occupied(t.slots, p)
    ensures var id := t.slots[p].keyIdx;
            id < |t.keys| && t.keys[id] in Abs(t) && Abs(t)[t.keys[id]] == Stored(id - 1, t.datas[id])
  {
    OccupiedIds(t, hash);
    MapAt(Live(t.slots), t.keys, t.datas, t.slots[p].keyIdx);
  }

  lemma PackedLacks<K, D>(f: Filling<K, D>, n: nat, k: K)
    requires CanHold(f, n) && InOrder(f, n)
    requires forall i: nat :: i < n ==> f.key(i) != k
    ensures k !in Abs(Packed(f, n))
  {
    PackedInv(f, n);
    PackedFind(f, n, k);
    FindInMap(Packed(f, n), f.hash, k);
  }

  // ---- a table of four buckets -----------------------------------------------------------------

  /** The buckets of the 16 keys that fill the table, and of a further one. */
  function Home(i: nat): nat { if i < 16 then i / 4 else 0 }

  function Other(i: nat): nat { if i == 0 || 4 <= i < 8 then 1 else if i < 4 then 2 else 3 }

  /** Their hashes: the low bits give the first bucket, the tag the second. */
  function SampleHash(i: nat): uint32
    requires i <= 16
  {
    4096 * Tag(i) + 4 * i + Home(i)
  }

  function Tag(i: nat): nat { if i == 0 || 8 <= i < 12 then 0 else if i < 4 then 1 else if i < 16 then 3 else 2 }

  lemma LowTwo(x: nat)
    ensures And(x, 3) == x % 4
  {
    assert Pow2(2) == 4;
    AndMask(x, 2);
  }

  lemma XorLowTwo(x: nat, y: nat)
    ensures Xor(x, y) % 4 == Xor(x % 4, y % 4)
  {
    XorHalf(x, y);
    XorHalf(x / 2, y / 2);
    XorDigits(x % 4, y % 4);
    TwoDigits(x);
    TwoDigits(y);
    LowDigits(Xor(x, y), Xor(x / 2, y / 2), Xor(x / 2 / 2, y / 2 / 2),
              if x / 2 % 2 != y / 2 % 2 then 1 else 0, if x % 2 != y % 2 then 1 else 0);
  }

  lemma LowDigits(v: nat, half: nat, quarter: nat, d: nat, e: nat)
    requires v == 2 * half + e && half == 2 * quarter + d && d <= 1 && e <= 1
    ensures v % 4 == 2 * d + e
  {}

  lemma XorDigits(x: nat, y: nat)
    requires x < 4 && y < 4
    ensures Xor(x, y) == (if x / 2 != y / 2 then 2 else 0) + if x % 2 != y % 2 then 1 else 0
  {
    XorHalf(x, y);
    XorHalf(x / 2, y / 2);
    assert Xor(0, 0) == 0;
  }

  lemma TwoDigits(x: nat)
    ensures x % 4 / 2 == x / 2 % 2 && x % 4 % 2 == x % 2
  {}

  lemma MixLowTwo(tag: uint32)
    requires tag + 1 < 0x1_0000_0000
    ensures Mix(tag) % 4 == (tag + 1) % 4
  {
    MixIs(tag);
    var t := tag + 1;
    assert t * 0x5bd1e995 == 4 * (t * 0x16f47a65) + t;
    ModFour(t * 0x5bd1e995, t * 0x16f47a65, t);
  }

  lemma ModFour(x: nat, q: nat, t: nat)
    requires x == 4 * q + t
    ensures x % 0x1_0000_0000 % 4 == t % 4
  {
    var a, b := x / 0x1_0000_0000, x % 0x1_0000_0000;
    ModUnique(x, a * 0x4000_0000 + b / 4, b % 4, 4);
    ModUnique(x, q + t / 4, t % 4, 4);
  }

  /** The second bucket in terms of tag and first bucket. */
  lemma SecondaryLowTwo(h: uint32, tag: uint32)
    requires tag == h / 4096
    ensures Secondary(h) % 4 == Xor(h % 4, (tag + 1) % 4)
  {
    SecondaryIs(h, tag);
    MixLowTwo(tag);
    XorLowTwo(h, Mix(tag));
  }

  lemma BucketLowTwo(h: uint32)
    ensures BucketOf(h, 4) == h % 4
  {
    LowTwo(h);
  }

  lemma SampleParts(i: nat)
    requires i <= 16
    ensures SampleHash(i) / 4096 == Tag(i) && SampleHash(i) % 4096 == 4 * i + Home(i) && SampleHash(i) % 4 == Home(i)
  {}

  lemma SampleBuckets(i: nat)
    requires i <= 16
    ensures BucketOf(SampleHash(i), 4) == Home(i) && BucketOf(Secondary(SampleHash(i)), 4) == Other(i)
  {
    SampleParts(i);
    BucketLowTwo(SampleHash(i));
    BucketLowTwo(Secondary(SampleHash(i)));
    SecondaryLowTwo(SampleHash(i), Tag(i));
    OtherIs(i);
  }

  lemma OtherIs(i: nat)
    requires i <= 16
    ensures Xor(Home(i), (Tag(i) + 1) % 4) == Other(i)
  {
    XorDigits(Home(i), (Tag(i) + 1) % 4);
  }

  /** 17 different keys for those buckets. */
  ghost predicate IsSample<K, D>(f: Filling<K, D>) {
    && f.nb == 4 && f.m == 16
    && (forall i: nat :: i <= 16 ==> Suits(f.hash(f.key(i)), i))
    && (forall i: nat, j: nat :: i < j <= 16 ==> f.key(i) != f.key(j))
  }

  ghost predicate Suits(h: uint32, i: nat) {
    BucketOf(h, 4) == Home(i) && BucketOf(Secondary(h), 4) == Other(i)
  }

  /** Keys with the sample hashes will do. */
  lemma SampleIs<K, D>(f: Filling<K, D>)
    requires f.nb == 4 && f.m == 16 && forall i: nat :: i <= 16 ==> f.hash(f.key(i)) == SampleHash(i)
    ensures IsSample(f)
  {
    forall i: nat | i <= 16 ensures Suits(f.hash(f.key(i)), i) { SampleBuckets(i); }
    forall i: nat, j: nat | i < j <= 16 ensures f.key(i) != f.key(j) {
      SampleParts(i);
      SampleParts(j);
      assert f.hash(f.key(i)) == SampleHash(i) && f.hash(f.key(j)) == SampleHash(j);
    }
  }

  lemma SampleInOrder<K, D>(f: Filling<K, D>)
    requires IsSample(f)
    ensures InOrder(f, 16)
  {
    forall i: nat | i < 16 ensures BucketOf(f.hash(f.key(i)), f.nb) == i / 4 {
      assert Suits(f.hash(f.key(i)), i);
    }
  }

  /** Where the entries of the packed table would move. */
  lemma SampleAlt<K, D>(f: Filling<K, D>, n: nat, p: nat)
    requires IsSample(f) && p < n <= 16
    ensures var slots := Packed(f, n).slots;
            !Empty(slots[p]) && AltBucket(slots, 4, p) == Other(p)
  {
    assert Suits(f.hash(f.key(p)), p);
    EntryNotEmpty(f.hash, f.key(p), p + 1);
  }

  lemma SampleFull<K, D>(f: Filling<K, D>)
    requires IsSample(f)
    ensures var slots := Packed(f, 12).slots;
            && Full(slots, 0) && Full(slots, 1) && Full(slots, 2) && FirstEmpty(slots, 3, 0) == 0
            && forall p: nat :: p < 12 ==> AltBucket(slots, 4, p) == Other(p)
  {
    var slots := Packed(f, 12).slots;
    forall p: nat | p < 12 ensures !Empty(slots[p]) && AltBucket(slots, 4, p) == Other(p) {
      SampleAlt(f, 12, p);
    }
    assert Empty(slots[At(3, 0)]);
  }

  /** From bucket 0 the search follows its first entry into bucket 1, and goes round
      there until it gives up. */
  lemma SampleStuck<K, D>(f: Filling<K, D>)
    requires IsSample(f)
    ensures !HasPlace(Packed(f, 12).slots, 4, 0)
  {
    SampleFull(f);
    TrappedSearch(Packed(f, 12).slots);
  }

  lemma TrappedSearch(slots: seq<Slot>)
    requires Sized(slots, 4) && Full(slots, 0) && Full(slots, 1) && Full(slots, 2)
    requires forall i: nat :: i < 4 ==> AltBucket(slots, 4, At(0, i)) == 1 || AltBucket(slots, 4, At(0, i)) == 2
    requires AltBucket(slots, 4, 0) == 1 && forall i: nat :: i < 4 ==> AltBucket(slots, 4, At(1, i)) == 1
    ensures !HasPlace(slots, 4, 0)
  {
    FullIff(slots, 0);
    FullIff(slots, 1);
    FullIff(slots, 2);
    StuckSearch(slots, NoFlags(|slots|)[0 := true], 4, 1);
    SearchGoesOn(slots, NoFlags(|slots|), 4, 0);
  }

  lemma SearchGoesOn(slots: seq<Slot>, flags: seq<bool>, nb: nat, b: nat)
    requires Sized(slots, nb) && |flags| == |slots| && b < nb && !flags[At(b, 0)]
    requires forall i: nat :: i < 4 ==> FirstEmpty(slots, AltBucket(slots, nb, At(b, i)), 0) == 4
    requires SearchPath(slots, flags[At(b, 0) := true], nb, AltBucket(slots, nb, At(b, 0))) == None
    ensures SearchPath(slots, flags, nb, b) == None
  {
    assert FirstMovable(slots, nb, b, 0) == 4;
    assert FirstUnflagged(flags, b, 0) == 0;
    FlaggingShrinks(flags, At(b, 0));
  }

  /** Yet its second entry could go to bucket 2 once the first of bucket 2 has gone to
      bucket 3. */
  lemma SamplePath<K, D>(f: Filling<K, D>)
    requires IsSample(f)
    ensures PathFrom(Packed(f, 12).slots, 4, 0, [1, 8, 12])
  {
    var slots := Packed(f, 12).slots;
    SampleFull(f);
    assert !Empty(slots[At(0, 1)]) && !Empty(slots[At(2, 0)]) && Empty(slots[At(3, 0)]);
  }

  /** A new key can be refused with ids free, its secondary bucket empty, and a path of
      displacements out of its primary bucket: the search does not go back.  So the
      converse of NoPathRefuses fails. */
  lemma RefusedBesidePath<K, D>(f: Filling<K, D>, d: D)
    returns (ts: seq<Table<K, D>>, ops: seq<Op<K, D>>, rs: seq<Result<D>>)
    requires IsSample(f)
    ensures Reached(ts, f.hash, ops, rs) && |ops| == 12 && Inv(ts[12], f.hash) && |ts[12].keys| == 17
    ensures var t, k := ts[12], f.key(16);
            && k !in Abs(t) && |t.free| == 4
            && FirstEmpty(t.slots, BucketOf(Secondary(f.hash(k)), t.nb), 0) == 0
            && PathFrom(t.slots, t.nb, BucketOf(f.hash(k), t.nb), [1, 8, 12])
            && Add(t, f.hash, k, d).1 == -28
  {
    SampleInOrder(f);
    ts, ops, rs := PackedRun(f, 12);
    PackedLacks(f, 12, f.key(16));
    assert Suits(f.hash(f.key(16)), 16);
    SampleFull(f);
    SamplePath(f);
    SampleStuck(f);
    RefusedWithoutPlace(ts[12], f.hash, f.key(16), d);
  }

  /** A new key can be accepted although a bucket is the other bucket of five entries:
      the converse of FewPointersAccepts fails too. */
  lemma AcceptedBesidePointers<K, D>(f: Filling<K, D>)
    returns (ts: seq<Table<K, D>>, ops: seq<Op<K, D>>, rs: seq<Result<D>>)
    requires IsSample(f)
    ensures Reached(ts, f.hash, ops, rs) && |ops| == 12 && Inv(ts[12], f.hash) && |ts[12].keys| == 17
    ensures Pointers(ts[12].slots, 4, 1) == {0, 4, 5, 6, 7} && Add(ts[12], f.hash, f.key(12), f.datum(12)).1 == 12
  {
    SampleInOrder(f);
    ts, ops, rs := PackedRun(f, 12);
    SamplePointers(f);
    PackedStep(f, 12, 13);
  }

  lemma SamplePointers<K, D>(f: Filling<K, D>)
    requires IsSample(f)
    ensures Pointers(Packed(f, 12).slots, 4, 1) == {0, 4, 5, 6, 7}
  {
    var slots := Packed(f, 12).slots;
    forall p: nat | p < 12 ensures !Empty(slots[p]) && AltBucket(slots, 4, p) == Other(p) { SampleAlt(f, 12, p); }
  }

  /** On a full table the update of a present key is refused and its data stays. */
  lemma FullTableRefusesUpdate<K, D>(f: Filling<K, D>, d: D)
    returns (ts: seq<Table<K, D>>, ops: seq<Op<K, D>>, rs: seq<Result<D>>)
    requires IsSample(f)
    ensures Reached(ts, f.hash, ops, rs) && |ops| == 16 && Inv(ts[16], f.hash)
    ensures var t, k := ts[16], f.key(0);
            k in Abs(t) && Abs(t)[k].data == f.datum(0) && Add(t, f.hash, k, d) == (t, -28)
  {
    SampleInOrder(f);
    ts, ops, rs := PackedRun(f, 16);
    PackedHas(f, 16, 0);
  }
}
