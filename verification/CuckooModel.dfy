/** The contents of a cuckoo table as a value, its invariant, and the finite map
    it stands for.  The operations on the value state what the methods of
    `CuckooHash` do to the arrays; the lemmas say what they mean for the map. */
module CuckooModel {
  import opened Bits
  import opened CuckooSearch

  /** Slots, the key store (indexed by slot id, 0 unused) and the queue of free
      slot ids.  The key store has room for ids 1 .. |keys| - 1. */
  datatype Table<K, D> = Table(nb: nat, slots: seq<Slot>, keys: seq<K>, datas: seq<D>, free: seq<uint32>)

  /** What the map holds for a key: its position and its data. */
  datatype Stored<D> = Stored(pos: int, data: D)

  // ---- invariant -------------------------------------------------------------------

  predicate Occupied(slots: seq<Slot>, p: nat) {
    p < |slots| && !Empty(slots[p])
  }

  /** The slot ids in use. */
  ghost function Live(slots: seq<Slot>): set<uint32> {
    set p: nat | p < |slots| && !Empty(slots[p]) :: slots[p].keyIdx
  }

  ghost predicate Shape<K, D>(t: Table<K, D>) {
    Sized(t.slots, t.nb) && 1 <= |t.keys| == |t.datas| <= 0x1_0000_0000
  }

  /** The slot's hashes are those of its key, in either order. */
  ghost predicate Signed(s: Slot, h: uint32) {
    (s.current == h && s.alt == Secondary(h)) || (s.current == Secondary(h) && s.alt == h)
  }

  /** Slot p refers to a stored key, carries its hashes, and lies in the bucket
      of its current hash. */
  ghost predicate Placed<K>(s: Slot, p: nat, nb: nat, keys: seq<K>, hash: K -> uint32)
    requires nb > 0
  {
    && 1 <= s.keyIdx < |keys|
    && BucketOf(s.current, nb) == p / 4
    && Signed(s, hash(keys[s.keyIdx]))
  }

  ghost predicate AllPlaced<K>(slots: seq<Slot>, nb: nat, keys: seq<K>, hash: K -> uint32)
    requires nb > 0
  {
    forall p: nat :: Occupied(slots, p) ==> Placed(slots[p], p, nb, keys, hash)
  }

  ghost predicate IdsUnique(slots: seq<Slot>) {
    forall p: nat, q: nat :: Occupied(slots, p) && Occupied(slots, q) && p != q ==> slots[p].keyIdx != slots[q].keyIdx
  }

  ghost predicate KeysUnique<K>(live: set<uint32>, keys: seq<K>) {
    forall i, j :: i in live && j in live && i != j && i < |keys| && j < |keys| ==> keys[i] != keys[j]
  }

  ghost predicate NoRepeats<T>(s: seq<T>) {
    forall i, j :: 0 <= i < j < |s| ==> s[i] != s[j]
  }

  /** Every id is either used by a slot or free, once. */
  ghost predicate FreeExact(free: seq<uint32>, live: set<uint32>, n: nat) {
    NoRepeats(free) && forall id: uint32 :: id in free <==> 1 <= id < n && id !in live
  }

  ghost predicate Inv<K, D>(t: Table<K, D>, hash: K -> uint32) {
    && Shape(t)
    && AllPlaced(t.slots, t.nb, t.keys, hash)
    && IdsUnique(t.slots)
    && KeysUnique(Live(t.slots), t.keys)
    && FreeExact(t.free, Live(t.slots), |t.keys|)
  }

  // ---- the map ----------------------------------------------------------------------

  ghost predicate IdHolds<K>(live: set<uint32>, keys: seq<K>, id: uint32, k: K) {
    id in live && id < |keys| && keys[id] == k
  }

  ghost function KeySet<K>(live: set<uint32>, keys: seq<K>): set<K> {
    set id | id in live && id < |keys| :: keys[id]
  }

  ghost function MapOf<K, D>(live: set<uint32>, keys: seq<K>, datas: seq<D>): map<K, Stored<D>>
    requires |keys| == |datas|
  {
    map k | k in KeySet(live, keys) ::
      var id :| id in live && id < |keys| && keys[id] == k; Stored(id - 1, datas[id])
  }

  ghost function Abs<K, D>(t: Table<K, D>): map<K, Stored<D>>
    requires |t.keys| == |t.datas|
  {
    MapOf(Live(t.slots), t.keys, t.datas)
  }

  lemma MapAt<K, D>(live: set<uint32>, keys: seq<K>, datas: seq<D>, id: uint32)
    requires |keys| == |datas| && KeysUnique(live, keys) && id in live && id < |keys|
    ensures keys[id] in MapOf(live, keys, datas)
    ensures MapOf(live, keys, datas)[keys[id]] == Stored(id - 1, datas[id])
  {}

  lemma MapKey<K, D>(live: set<uint32>, keys: seq<K>, datas: seq<D>, k: K) returns (id: uint32)
    requires |keys| == |datas| && k in MapOf(live, keys, datas)
    ensures IdHolds(live, keys, id, k)
  {
    id :| id in live && id < |keys| && keys[id] == k;
  }

  lemma MapInsert<K, D>(live: set<uint32>, keys: seq<K>, datas: seq<D>, id: uint32, k: K, d: D)
    requires |keys| == |datas| && KeysUnique(live, keys) && id !in live && id < |keys|
    requires k !in MapOf(live, keys, datas)
    ensures KeysUnique(live + {id}, keys[id := k])
    ensures MapOf(live + {id}, keys[id := k], datas[id := d]) == MapOf(live, keys, datas)[k := Stored(id - 1, d)]
  {}

  /** Overwriting the store at an id not in use changes nothing. */
  lemma MapFrame<K, D>(live: set<uint32>, keys: seq<K>, datas: seq<D>, id: uint32, k: K, d: D)
    requires |keys| == |datas| && KeysUnique(live, keys) && id !in live && id < |keys|
    ensures KeysUnique(live, keys[id := k])
    ensures MapOf(live, keys[id := k], datas[id := d]) == MapOf(live, keys, datas)
  {}

  lemma MapUpdate<K, D>(live: set<uint32>, keys: seq<K>, datas: seq<D>, id: uint32, d: D)
    requires |keys| == |datas| && KeysUnique(live, keys) && id in live && id < |keys|
    ensures MapOf(live, keys, datas[id := d]) == MapOf(live, keys, datas)[keys[id] := Stored(id - 1, d)]
  {}

  lemma MapDelete<K, D>(live: set<uint32>, keys: seq<K>, datas: seq<D>, id: uint32)
    requires |keys| == |datas| && KeysUnique(live, keys) && id in live && id < |keys|
    ensures KeysUnique(live - {id}, keys)
    ensures MapOf(live - {id}, keys, datas) == MapOf(live, keys, datas) - {keys[id]}
  {}
}
