/** The cuckoo hash table of tools/cuckoohash.c: buckets, flags and key store as
    arrays updated in place, free slot ids in a byte ring.  Every method is tied to
    the operation on values of the same name and to the map it stands for. */
module CuckooHash {
  import opened Bits
  import opened RingBuffer
  import opened IdRing
  import opened CuckooSearch
  import opened CuckooModel
  import opened CuckooOps
  import opened CuckooRuns

  const EINVAL := 22
  const HASH_ENTRIES_MIN: uint32 := 8
  const HASH_ENTRIES_MAX: uint32 := 1048576

  /** The bytes mapped for a table of n entries: header, buckets and key store. */
  function RealSize(key: uint32, n: uint32): nat {
    MulMono(0, 8 + key, n + 1);
    48 + RoundUp2(n) / 4 * 56 + (n + 1) * (8 + key)
  }

  /** The size is kept in 32 bits. */
  predicate Fits32(key: uint32, n: uint32) {
    RealSize(key, n) < 0x1_0000_0000
  }

  lemma FitsBound(key: uint32, n: uint32)
    requires key > 0 && Fits32(key, n)
    ensures n < 0x2000_0000
  {
    MulMono(9, 8 + key, n + 1);
  }

  /** Up to the declared maximum it fits for all keys of up to 4073 bytes. */
  lemma DeclaredMaxFits(key: uint32, n: uint32)
    requires 1 <= n <= 1048576 && key <= 4073
    ensures Fits32(key, n)
  {
    RoundUp2Correct(n);
    assert Pow2(10) == 1024;
    Pow2Split(10, 20);
    SizeBound(RoundUp2(n) / 4, n + 1, 8 + key);
  }

  /** With one byte more a table of the declared maximum no longer does. */
  lemma LongerKeyDoesNotFit()
    ensures !Fits32(4074, 1048576)
  {
    RoundUp2Correct(HASH_ENTRIES_MAX);
  }

  lemma SizeBound(nb: nat, a: nat, b: nat)
    requires nb <= 0x4_0000 && a <= 0x10_0001 && b <= 4081
    ensures 48 + nb * 56 + a * b < 0x1_0000_0000
  {
    MulMono(b, 4081, a);
  }

  class CuckooHash<K(==,0), D(0)> {
    const entries: uint32
    const numBuckets: uint32
    const bucketBitmask: uint32
    const hash: K -> uint32
    const freeSlots: RingBuffer
    const slots: array<Slot>
    const flag: array<bool>
    const keys: array<K>
    const datas: array<D>
    ghost var free: seq<uint32>

    ghost predicate Separate()
    {
      && slots as object !in {flag as object, keys, datas, freeSlots, freeSlots.data}
      && flag as object !in {keys as object, datas, freeSlots, freeSlots.data}
      && keys as object !in {datas as object, freeSlots, freeSlots.data}
      && datas as object !in {freeSlots as object, freeSlots.data}
      && this as object !in {slots as object, flag, keys, datas, freeSlots, freeSlots.data}
    }

    ghost function Repr(): set<object> {
      {this, slots, flag, keys, datas, freeSlots, freeSlots.data}
    }

    /** The contents as a value. */
    ghost function Table(): Table<K, D>
      reads this, slots, keys, datas
    {
      CuckooModel.Table(numBuckets, slots[..], keys[..], datas[..], free)
    }

    ghost predicate Sizes()
    {
      && numBuckets > 0 && bucketBitmask == numBuckets - 1
      && slots.Length == flag.Length == 4 * numBuckets < 0x1_0000_0000
      && keys.Length == datas.Length == entries + 1
      && 4 * (entries + 1) <= freeSlots.size
    }

    ghost predicate Valid()
      reads Repr()
    {
      && Separate() && Sizes()
      && Queues(freeSlots, free)
      && flag[..] == NoFlags(flag.Length)
      && Inv(Table(), hash)
    }

    /** The map from keys to their positions and data. */
    ghost function Contents(): map<K, Stored<D>>
      reads this, slots, keys, datas
      requires Sizes()
    {
      Abs(Table())
    }

    /** The map of a sound table, for clients that rely on nothing else. */
    ghost function Model(): Option<map<K, Stored<D>>>
      reads Repr()
    {
      if Valid() then Some(Contents()) else None
    }

    // ---- cuckoohash_create -----------------------------------------------------------------

    /** The table for an accepted size: all slots empty and every id free. */
    constructor (entryNr: uint32, hash: K -> uint32)
      requires HASH_ENTRIES_MIN <= entryNr < 0x2000_0000
      ensures Valid() && fresh(Repr()) && Contents() == map[]
      ensures entries == entryNr && this.hash == hash
      ensures IsPow2(4 * numBuckets) && entries <= 4 * numBuckets < 2 * entries
    {
      var bucketNr := RoundUp2(entryNr) / 4;
      RoundUpBuckets(entryNr);
      entries := entryNr;
      this.hash := hash;
      numBuckets := bucketNr;
      bucketBitmask := bucketNr - 1;
      slots := new Slot[4 * bucketNr](_ => Slot(0, 0, 0));
      flag := new bool[4 * bucketNr](_ => false);
      keys := new K[entryNr + 1];
      datas := new D[entryNr + 1];
      freeSlots := new RingBuffer(4 * (entryNr + 1));
      free := [];
      new;
      assert fresh(Repr());
      Start();
    }

    method Start()
      requires Separate() && Sizes() && Queues(freeSlots, free) && free == []
      requires forall p :: 0 <= p < slots.Length ==> Empty(slots[p]) && !flag[p]
      modifies this`free, freeSlots, freeSlots.data
      ensures Valid() && Contents() == map[]
    {
      assert flag[..] == NoFlags(flag.Length);
      FillFree();
      EmptyTable(Table(), hash);
    }

    /** Queue every id from 1 on: the ring is large enough for all of them. */
    method FillFree()
      requires Separate() && Sizes() && Queues(freeSlots, free) && free == []
      modifies this`free, freeSlots, freeSlots.data
      ensures Queues(freeSlots, free) && free == seq(entries, n => n + 1)
    {
      var i := 1;
      while i < entries + 1
        invariant 1 <= i <= entries + 1
        invariant Queues(freeSlots, free)
        invariant free == seq(i - 1, n => n + 1)
      {
        var n := PutId(freeSlots, i, free);
        free := free + [i];
        i := i + 1;
      }
    }

    /** cuckoohash_create: an empty key or table is refused, a table of fewer
        than 8 entries is made for 8. */
    static method Create(key: uint32, entryNr: uint32, hash: K -> uint32) returns (ret: int, tbl: CuckooHash?<K, D>)
      requires key > 0 && entryNr > 0 ==> Fits32(key, if entryNr < HASH_ENTRIES_MIN then HASH_ENTRIES_MIN else entryNr)
      ensures if key == 0 || entryNr == 0 then ret == -22 && tbl == null
              else ret == 0 && tbl != null && tbl.Valid() && fresh(tbl.Repr())
                   && tbl.Contents() == map[] && tbl.hash == hash
                   && tbl.entries == if entryNr < 8 then 8 else entryNr
    {
      if key <= 0 || entryNr <= 0 {
        return -EINVAL, null;
      }
      var n := if entryNr < HASH_ENTRIES_MIN then HASH_ENTRIES_MIN else entryNr;
      FitsBound(key, n);
      tbl := new CuckooHash(n, hash);
      ret := 0;
    }

    // ---- making space --------------------------------------------------------------------

    /** The scan of a bucket for an empty slot. */
    method EmptyIn(bkt: nat) returns (j: nat)
      requires Sizes() && bkt < numBuckets
      ensures j == FirstEmpty(slots[..], bkt, 0)
    {
      ghost var s := slots[..];
      j := 0;
      while j < 4 && !Empty(slots[At(bkt, j)])
        invariant 0 <= j <= 4
        invariant FirstEmpty(s, bkt, 0) == FirstEmpty(s, bkt, j)
      {
        j := j + 1;
      }
    }

    /** The first search of make_space_bucket: an entry of bucket bkt whose other
        bucket has room, and the empty slot there; and the other buckets seen. */
    method FindRoom(bkt: nat) returns (i: nat, j: nat, nextBkt: seq<nat>)
      requires Sizes() && bkt < numBuckets
      ensures i == FirstMovable(slots[..], numBuckets, bkt, 0) && |nextBkt| == 4
      ensures forall k: nat :: k <= i && k < 4 ==> nextBkt[k] == AltBucket(slots[..], numBuckets, At(bkt, k))
      ensures i < 4 ==> j == FirstEmpty(slots[..], nextBkt[i], 0)
    {
      ghost var s := slots[..];
      nextBkt := [0, 0, 0, 0];
      i, j := 0, 0;
      while i < 4
        invariant 0 <= i <= 4 && |nextBkt| == 4
        invariant forall k: nat :: k < i ==> nextBkt[k] == AltBucket(s, numBuckets, At(bkt, k))
        invariant FirstMovable(s, numBuckets, bkt, 0) == FirstMovable(s, numBuckets, bkt, i)
      {
        var next;
        next, j := RoomOf(At(bkt, i));
        nextBkt := nextBkt[i := next];
        if j != 4 {
          break;
        }
        i := i + 1;
      }
    }

    /** The other bucket of the entry at slot p, and the first empty slot there. */
    method RoomOf(p: nat) returns (next: nat, j: nat)
      requires Sizes() && p < slots.Length
      ensures next == AltBucket(slots[..], numBuckets, p) && j == FirstEmpty(slots[..], next, 0)
    {
      next := And(slots[p].alt, bucketBitmask);
      j := EmptyIn(next);
    }

    /** Its second search: an entry of bucket bkt not being pushed. */
    method PickUnflagged(bkt: nat) returns (i: nat)
      requires Sizes() && bkt < numBuckets
      ensures i == FirstUnflagged(flag[..], bkt, 0)
    {
      ghost var f := flag[..];
      i := 0;
      while i < 4 && flag[At(bkt, i)]
        invariant 0 <= i <= 4
        invariant FirstUnflagged(f, bkt, 0) == FirstUnflagged(f, bkt, i)
      {
        i := i + 1;
      }
    }

    /** make_space_bucket: follow and carry out the displacement search from a full
        bucket.  All flags are restored; on -ENOSPC nothing is moved.  The calls
        nest at most once per unflagged slot and once more. */
    method MakeSpaceBucket(bkt: nat) returns (ret: int, ghost depth: nat)
      requires Sizes() && bkt < numBuckets
      requires FlagsExhausted(slots[..], flag[..], numBuckets) && Full(slots[..], bkt)
      modifies slots, flag
      ensures flag[..] == old(flag[..])
      ensures Pushes(old(slots[..]), old(flag[..]), numBuckets, bkt, slots[..], ret)
      ensures ret < 0 ==> ret == -28
      ensures 1 <= depth <= |Unflagged(old(flag[..]))| + 1
      decreases Unflagged(flag[..]), 1
    {
      ghost var s, f := slots[..], flag[..];
      depth := 1;
      var i, j, nextBkt := FindRoom(bkt);
      if i != 4 {
        PushesDirectly(s, f, numBuckets, bkt, i, At(nextBkt[i], j));
        Push(At(bkt, i), At(nextBkt[i], j));
        return i, depth;
      }
      i := PickUnflagged(bkt);
      if i == 4 {
        return -ENOSPC, depth;
      }
      ret, depth := PushedAside(bkt, i, nextBkt[i]);
      depth := depth + 1;
      PushesDeeper(s, f, numBuckets, bkt, i, nextBkt[i], slots[..], ret);
      if ret >= 0 {
        Push(At(bkt, i), At(nextBkt[i], ret));
        ret := i;
      }
    }

    /** Its inner call, made while slot i of bkt is flagged as being pushed. */
    method PushedAside(bkt: nat, i: nat, nextBkt: nat) returns (ret: int, ghost depth: nat)
      requires Sizes() && bkt < numBuckets && i < 4
      requires FlagsExhausted(slots[..], flag[..], numBuckets) && Full(slots[..], bkt)
      requires FirstMovable(slots[..], numBuckets, bkt, 0) == 4 && !flag[At(bkt, i)]
      requires nextBkt == AltBucket(slots[..], numBuckets, At(bkt, i))
      modifies slots, flag
      ensures flag[..] == old(flag[..])
      ensures Pushes(old(slots[..]), old(flag[..])[At(bkt, i) := true], numBuckets, nextBkt, slots[..], ret)
      ensures ret < 0 ==> ret == -28
      ensures 1 <= depth <= |Unflagged(old(flag[..]))|
      decreases Unflagged(flag[..]), 0
    {
      var p := At(bkt, i);
      ghost var f := flag[..];
      FlaggingExhausted(slots[..], f, numBuckets, bkt, i);
      FlaggingShrinks(f, p);
      FlagsRestored(f, p);
      SetFlag(p, true);
      ret, depth := MakeSpaceBucket(nextBkt);
      SetFlag(p, false);
    }

    lemma FlagsRestored(f: seq<bool>, p: nat)
      requires p < |f| && !f[p]
      ensures f[p := true][p := false] == f
    {}

    method SetFlag(p: nat, on: bool)
      requires p < flag.Length
      modifies flag
      ensures flag[..] == old(flag[..])[p := on]
    {
      flag[p] := on;
    }

    /** Write slot p's entry, its signature halves exchanged, into slot q. */
    method Push(p: nat, q: nat)
      requires p < slots.Length && q < slots.Length && p != q
      modifies slots
      ensures slots[..] == old(slots[..])[q := Moved(old(slots[p]))]
    {
      slots[q] := slots[q].(alt := slots[p].current);
      slots[q] := slots[q].(current := slots[p].alt);
      slots[q] := slots[q].(keyIdx := slots[p].keyIdx);
    }

    // ---- the free queue ------------------------------------------------------------------------

    /** Take the oldest free id; a get yields four bytes or none. */
    method TakeSlot() returns (n: uint32, id: uint32)
      requires Separate() && Sizes() && Queues(freeSlots, free)
      modifies this`free, freeSlots
      ensures Queues(freeSlots, free)
      ensures if old(free) == [] then n == 0 && free == [] else n == 4 && id == old(free)[0] && free == old(free)[1..]
    {
      n, id := GetId(freeSlots, free);
      if n == 4 { free := free[1..]; }
    }

    /** Queue an id; with fewer than `entries` ids queued there is always room. */
    method ReturnSlot(id: uint32)
      requires Separate() && Sizes() && Queues(freeSlots, free) && |free| < entries
      modifies this`free, freeSlots, freeSlots.data
      ensures Queues(freeSlots, free) && free == old(free) + [id]
    {
      var n := PutId(freeSlots, id, free);
      free := free + [id];
    }

    // ---- add -----------------------------------------------------------------------------------

    /** The two duplicate checks of add: the slot holding the key, if any. */
    method FindStored(key: K, sig: uint32, altHash: uint32, ghost t: Table<K, D>) returns (r: Option<nat>)
      requires Sizes() && Inv(t, hash) && sig == hash(key) && altHash == Secondary(sig)
      requires t.slots == slots[..] && t.keys == keys[..] && t.nb == numBuckets
      ensures r == Find(t, key)
    {
      SecondaryDiffers(sig);
      OccupiedIds(t, hash);
      var primBkt, secBkt := And(sig, bucketBitmask), And(altHash, bucketBitmask);
      var i := 0;
      while i < 4
        invariant 0 <= i <= 4
        invariant forall k: nat :: k < i ==> !HeldAs(t, At(primBkt, k), key, sig)
      {
        var p := At(primBkt, i);
        HeldAsSigned(t, hash, key, p);
        if slots[p].current == sig && slots[p].alt == altHash && key == keys[slots[p].keyIdx] {
          HoldsWhere(t, hash, key, p);
          return Some(p);
        }
        i := i + 1;
      }
      i := 0;
      while i < 4
        invariant 0 <= i <= 4
        invariant forall k: nat :: k < i ==> !HeldAs(t, At(secBkt, k), key, altHash)
      {
        var p := At(secBkt, i);
        HeldAsSigned(t, hash, key, p);
        if slots[p].alt == sig && slots[p].current == altHash && key == keys[slots[p].keyIdx] {
          HoldsWhere(t, hash, key, p);
          return Some(p);
        }
        i := i + 1;
      }
      NotFound(t, hash, key);
      r := None;
    }

    /** Store an entry in bucket bkt: in its first empty slot, else in the slot
        that displacement frees there. */
    method Place(bkt: nat, entry: Slot) returns (ok: bool)
      requires Sizes() && bkt < numBuckets && flag[..] == NoFlags(flag.Length)
      modifies slots, flag
      ensures flag[..] == old(flag[..])
      ensures ok == HasPlace(old(slots[..]), numBuckets, bkt)
      ensures slots[..] == if ok then PlaceIn(old(slots[..]), numBuckets, bkt, entry) else old(slots[..])
    {
      var i := EmptyIn(bkt);
      if i < 4 {
        slots[At(bkt, i)] := entry;
        return true;
      }
      var ret;
      ghost var depth;
      ret, depth := MakeSpaceBucket(bkt);
      if ret >= 0 {
        slots[At(bkt, ret)] := entry;
        return true;
      }
      return false;
    }

    /** Store a new key under the slot id just taken from the queue. */
    method InsertNew(key: K, data: D, bkt: nat, entry: Slot, ghost t: Table<K, D>) returns (ret: int)
      requires Separate() && Sizes() && Queues(freeSlots, free) && flag[..] == NoFlags(flag.Length)
      requires Shape(t) && t.free != [] && Table() == t.(free := t.free[1..]) && |free| < entries
      requires t.free[0] < |t.keys| && bkt == BucketOf(hash(key), t.nb) && entry == Entry(hash, key, t.free[0])
      modifies this`free, slots, flag, keys, datas, freeSlots, freeSlots.data
      ensures Queues(freeSlots, free) && flag[..] == old(flag[..])
      ensures Table() == Insert(t, hash, key, data).0 && ret == Insert(t, hash, key, data).1
    {
      keys[entry.keyIdx] := key;
      datas[entry.keyIdx] := data;
      assert slots[..] == t.slots;
      var ok := Place(bkt, entry);
      ret := entry.keyIdx - 1;
      if !ok {
        ReturnSlot(entry.keyIdx);
        ret := -ENOSPC;
      }
      InsertIs(t, hash, key, data, Table(), ok);
    }

    /** Replace the data of a present key and queue the slot id taken for it. */
    method UpdateStored(p: nat, data: D, slotId: uint32)
      requires Separate() && Sizes() && Queues(freeSlots, free) && |free| < entries
      requires p < slots.Length && slots[p].keyIdx < keys.Length
      modifies this`free, datas, freeSlots, freeSlots.data
      ensures Queues(freeSlots, free)
      ensures Table() == old(Table()).(free := old(free) + [slotId], datas := old(datas[..])[slots[p].keyIdx := data])
    {
      ReturnSlot(slotId);
      datas[slots[p].keyIdx] := data;
    }

    /** The part of an add after a free slot id has been taken: update the key if
        it is present, else store it. */
    method AddWithSlot(key: K, sig: uint32, data: D, slotId: uint32, ghost t: Table<K, D>) returns (ret: int)
      requires Separate() && Sizes() && Queues(freeSlots, free) && flag[..] == NoFlags(flag.Length)
      requires Inv(t, hash) && 0 < |t.free| <= entries && slotId == t.free[0] && sig == hash(key)
      requires Table() == t.(free := t.free[1..])
      modifies this`free, slots, flag, keys, datas, freeSlots, freeSlots.data
      ensures Queues(freeSlots, free) && flag[..] == old(flag[..])
      ensures Table() == Add(t, hash, key, data).0 && ret == Add(t, hash, key, data).1
    {
      var altHash := Secondary(sig);
      var r := FindStored(key, sig, altHash, t);
      if r.Some? {
        OccupiedIds(t, hash);
        UpdateStored(r.value, data, slotId);
        ret := slots[r.value].keyIdx - 1;
      } else {
        FreeHead(t, hash);
        ret := InsertNew(key, data, And(sig, bucketBitmask), Slot(sig, altHash, slotId), t);
      }
    }

    /** __cuckoohash_add_key_with_hash. */
    method AddKeyWithHash(key: K, sig: uint32, data: D) returns (ret: int)
      requires Valid() && sig == hash(key)
      modifies this`free, slots, flag, keys, datas, freeSlots, freeSlots.data
      ensures Valid()
      ensures Table() == Add(old(Table()), hash, key, data).0 && ret == Add(old(Table()), hash, key, data).1
      ensures AddMeans(old(Contents()), Contents(), entries, key, data, ret)
    {
      ghost var t := Table();
      Conservation(t, hash);
      var n, slotId := TakeSlot();
      if n != 4 {
        ret := -ENOSPC;
      } else {
        ret := AddWithSlot(key, sig, data, slotId, t);
      }
      AddCorrect(t, hash, key, data);
    }

    /** cuckoohash_add_key_data: 0 instead of the position. */
    method AddKeyData(key: K, data: D) returns (ret: int)
      requires Valid()
      modifies this`free, slots, flag, keys, datas, freeSlots, freeSlots.data
      ensures Valid()
      ensures if ret == 0
              then key in Contents() && AddMeans(old(Contents()), Contents(), entries, key, data, Contents()[key].pos)
              else ret == -28 && AddMeans(old(Contents()), Contents(), entries, key, data, ret)
      ensures Table() == Add(old(Table()), hash, key, data).0
      ensures ret == 0 <==> Add(old(Table()), hash, key, data).1 != -28
    {
      PositionsBounded(Table(), hash);
      ret := AddKeyWithHash(key, hash(key), data);
      if ret >= 0 {
        return 0;
      }
    }

    // ---- lookup ----------------------------------------------------------------------------------

    /** The scan of the primary bucket by lookup and delete. */
    method ScanPrimary(key: K, sig: uint32, ghost t: Table<K, D>) returns (r: Option<nat>)
      requires Sizes() && Inv(t, hash) && sig == hash(key)
      requires t.slots == slots[..] && t.keys == keys[..] && t.nb == numBuckets
      ensures r.Some? ==> r == Find(t, key)
      ensures r.None? ==> NotIn(t, BucketOf(sig, numBuckets), key, sig)
    {
      OccupiedIds(t, hash);
      var bkt := And(sig, bucketBitmask);
      var i := 0;
      while i < 4
        invariant 0 <= i <= 4
        invariant forall k: nat :: k < i ==> !HeldAs(t, At(bkt, k), key, sig)
      {
        var p := At(bkt, i);
        if slots[p].current == sig && !Empty(slots[p]) && key == keys[slots[p].keyIdx] {
          HoldsWhere(t, hash, key, p);
          return Some(p);
        }
        i := i + 1;
      }
      r := None;
    }

    /** Lookup's scan of the secondary bucket. */
    method ScanSecondary(key: K, sig: uint32, altHash: uint32, ghost t: Table<K, D>) returns (r: Option<nat>)
      requires Sizes() && Inv(t, hash) && sig == hash(key) && altHash == Secondary(sig)
      requires t.slots == slots[..] && t.keys == keys[..] && t.nb == numBuckets
      requires NotIn(t, BucketOf(sig, numBuckets), key, sig)
      ensures r == Find(t, key)
    {
      OccupiedIds(t, hash);
      SecondaryDiffers(sig);
      var bkt := And(altHash, bucketBitmask);
      var i := 0;
      while i < 4
        invariant 0 <= i <= 4
        invariant forall k: nat :: k < i ==> !HeldAs(t, At(bkt, k), key, altHash)
      {
        var p := At(bkt, i);
        HeldAsSigned(t, hash, key, p);
        if slots[p].current == altHash && slots[p].alt == sig && key == keys[slots[p].keyIdx] {
          HoldsWhere(t, hash, key, p);
          return Some(p);
        }
        i := i + 1;
      }
      NotFound(t, hash, key);
      r := None;
    }

    /** __cuckoohash_lookup_with_hash. */
    method LookupWithHash(key: K, sig: uint32) returns (ret: int, data: Option<D>)
      requires Valid() && sig == hash(key)
      ensures LookupMeans(Contents(), key, ret, data)
    {
      ghost var t := Table();
      LookupCorrect(t, hash, key);
      OccupiedIds(t, hash);
      var r := ScanPrimary(key, sig, t);
      if r.None? {
        r := ScanSecondary(key, sig, Secondary(sig), t);
      }
      if r.Some? {
        ret, data := slots[r.value].keyIdx - 1, Some(datas[slots[r.value].keyIdx]);
      } else {
        ret, data := -ENOENT, None;
      }
    }

    // ---- delete ----------------------------------------------------------------------------------

    /** Delete's scan of both buckets. */
    method FindForDelete(key: K, sig: uint32, ghost t: Table<K, D>) returns (r: Option<nat>)
      requires Sizes() && Inv(t, hash) && sig == hash(key)
      requires t.slots == slots[..] && t.keys == keys[..] && t.nb == numBuckets
      ensures r == Find(t, key)
    {
      r := ScanPrimary(key, sig, t);
      if r.Some? {
        return;
      }
      OccupiedIds(t, hash);
      var altHash := Secondary(sig);
      var bkt := And(altHash, bucketBitmask);
      var i := 0;
      while i < 4
        invariant 0 <= i <= 4
        invariant forall k: nat :: k < i ==> !HeldAs(t, At(bkt, k), key, altHash)
      {
        var p := At(bkt, i);
        if slots[p].current == altHash && !Empty(slots[p]) && key == keys[slots[p].keyIdx] {
          HoldsWhere(t, hash, key, p);
          return Some(p);
        }
        i := i + 1;
      }
      NotFound(t, hash, key);
    }

    lemma IdsOut(p: nat)
      requires Valid() && Occupied(slots[..], p)
      ensures |free| < entries && 1 <= slots[p].keyIdx < keys.Length
    {
      Conservation(Table(), hash);
      OccupiedNotEmptyMap(Table(), hash, p);
    }

    /** Clear a slot and queue its id. */
    method ClearSlot(p: nat) returns (ret: int)
      requires Separate() && Sizes() && Queues(freeSlots, free) && p < slots.Length && |free| < entries
      modifies this`free, slots, freeSlots, freeSlots.data
      ensures Queues(freeSlots, free) && free == old(free) + [old(slots[p]).keyIdx]
      ensures ret == old(slots[p]).keyIdx - 1 && slots[..] == old(slots[..])[p := Cleared(old(slots[p]))]
    {
      slots[p] := Cleared(slots[p]);
      ReturnSlot(slots[p].keyIdx);
      ret := slots[p].keyIdx - 1;
    }

    /** __cuckoohash_del_key_with_hash. */
    method DelKeyWithHash(key: K, sig: uint32) returns (ret: int)
      requires Valid() && sig == hash(key)
      modifies this`free, slots, flag, keys, datas, freeSlots, freeSlots.data
      ensures Valid()
      ensures Table() == Delete(old(Table()), key).0 && ret == Delete(old(Table()), key).1
      ensures DeleteMeans(old(Contents()), Contents(), key, ret)
    {
      ghost var t := Table();
      DeleteCorrect(t, hash, key);
      var r := FindForDelete(key, sig, t);
      if r.Some? {
        IdsOut(r.value);
        ret := ClearSlot(r.value);
      } else {
        ret := -ENOENT;
      }
    }

    // ---- iterate ---------------------------------------------------------------------------------

    /** cuckoohash_iterate: the first entry from slot `next` on, and where to go on
        from.  `CuckooRuns.WalkIsMap` says what calls from 0 to -ENOENT return. */
    method Iterate(next: uint32) returns (ret: int, item: Option<(K, D)>, next': uint32)
      requires Valid()
      ensures if next >= slots.Length then ret == -2 && item == None && next' == next
              else var p := NextOccupied(slots[..], next);
                if p == slots.Length then ret == -2 && item == None && next' == p
                else next' == p + 1 && 1 <= slots[p].keyIdx < keys.Length && ret == slots[p].keyIdx - 1
                     && item == Some((keys[slots[p].keyIdx], datas[slots[p].keyIdx]))
    {
      ghost var s := slots[..];
      OccupiedIds(Table(), hash);
      next' := next;
      var totalEntries := 4 * numBuckets;
      if next' >= totalEntries {
        return -ENOENT, None, next';
      }
      while Empty(slots[next'])
        invariant next <= next' < totalEntries
        invariant NextOccupied(s, next) == NextOccupied(s, next')
        decreases totalEntries - next'
      {
        next' := next' + 1;
        if next' == totalEntries {
          return -ENOENT, None, next';
        }
      }
      var position := slots[next'].keyIdx;
      assert Occupied(s, next');
      return position - 1, Some((keys[position], datas[position])), next' + 1;
    }
  }
}
