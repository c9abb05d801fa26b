/** Add, lookup and delete on table values, and what they mean for the map. */
module CuckooOps {
  import opened Bits
  import opened CuckooSearch
  import opened CuckooModel

  const ENOENT := 2
  const ENOSPC := 28

  // ---- changes to the slots that keep the invariant ---------------------------------

  /** Moving an entry to an empty slot of its alternative bucket. */
  lemma MoveKeeps<K>(slots: seq<Slot>, nb: nat, keys: seq<K>, hash: K -> uint32, p: nat, q: nat)
    requires Sized(slots, nb) && AllPlaced(slots, nb, keys, hash) && IdsUnique(slots)
    requires Occupied(slots, p) && q < |slots| && Empty(slots[q]) && q / 4 == AltBucket(slots, nb, p)
    ensures var s := slots[q := Moved(slots[p])][p := Cleared(slots[p])];
            AllPlaced(s, nb, keys, hash) && IdsUnique(s) && Live(s) == Live(slots)
  {
    var s := slots[q := Moved(slots[p])][p := Cleared(slots[p])];
    assert Placed(slots[p], p, nb, keys, hash);
    forall r: nat | Occupied(s, r) ensures Placed(s[r], r, nb, keys, hash) {
      if r != q { assert Occupied(slots, r); }
    }
    forall id | id in Live(slots) ensures id in Live(s) {
      var r: nat :| r < |slots| && !Empty(slots[r]) && slots[r].keyIdx == id;
      var r' := if r == p then q else r;
      assert r' < |s| && !Empty(s[r']) && s[r'].keyIdx == id;
    }
    forall id | id in Live(s) ensures id in Live(slots) {
      var r: nat :| r < |s| && !Empty(s[r]) && s[r].keyIdx == id;
      var r' := if r == q then p else r;
      assert r' < |slots| && !Empty(slots[r']) && slots[r'].keyIdx == id;
    }
    forall r: nat, r': nat | Occupied(s, r) && Occupied(s, r') && r != r' ensures s[r].keyIdx != s[r'].keyIdx {
      assert Occupied(slots, if r == q then p else r) && Occupied(slots, if r' == q then p else r');
    }
  }

  /** The hole invariant: taking slot p to be empty, d holds exactly the entries
      that `slots` held, each once and in its bucket. */
  ghost predicate HoleAt<K>(slots: seq<Slot>, d: seq<Slot>, p: nat, nb: nat, keys: seq<K>, hash: K -> uint32) {
    Sized(d, nb) && p < |d| &&
    var s := d[p := Cleared(d[p])];
    AllPlaced(s, nb, keys, hash) && IdsUnique(s) && Live(s) == Live(slots)
  }

  /** Displacing along a path, however it winds through the buckets, loses no
      entry, duplicates none and leaves each in its bucket; the first slot of the
      path becomes the hole. */
  lemma {:induction false} DisplaceKeeps<K>(slots: seq<Slot>, nb: nat, keys: seq<K>, hash: K -> uint32, b: nat,
                                            path: seq<nat>)
    requires PathFrom(slots, nb, b, path)
    requires AllPlaced(slots, nb, keys, hash) && IdsUnique(slots)
    ensures HoleAt(slots, Displace(slots, path), path[0], nb, keys, hash)
    decreases |path|
  {
    if |path| == 1 {
      assert slots[path[0] := Cleared(slots[path[0]])] == slots;
    } else {
      PathTail(slots, nb, b, path);
      DisplaceKeeps(slots, nb, keys, hash, AltBucket(slots, nb, path[0]), path[1..]);
      DisplaceShifts(slots, path[1..]);
      DisplaceStep(slots, Displace(slots, path[1..]), nb, keys, hash, path[0], path[1]);
    }
  }

  /** The hole moves from q to p when p's entry is moved to q. */
  lemma DisplaceStep<K>(slots: seq<Slot>, d: seq<Slot>, nb: nat, keys: seq<K>, hash: K -> uint32, p: nat, q: nat)
    requires HoleAt(slots, d, q, nb, keys, hash)
    requires p < |d| == |slots| && p != q && d[p] == slots[p] && Occupied(slots, p) && q / 4 == AltBucket(slots, nb, p)
    ensures HoleAt(slots, d[q := Moved(d[p])], p, nb, keys, hash)
  {
    var s := d[q := Cleared(d[q])];
    MoveKeeps(s, nb, keys, hash, p, q);
    var d' := d[q := Moved(d[p])];
    assert s[q := Moved(s[p])][p := Cleared(s[p])] == d'[p := Cleared(d'[p])];
  }

  lemma PathTail(slots: seq<Slot>, nb: nat, b: nat, path: seq<nat>)
    requires PathFrom(slots, nb, b, path) && |path| >= 2
    ensures PathFrom(slots, nb, AltBucket(slots, nb, path[0]), path[1..])
    ensures path[0] !in path[1..] && Occupied(slots, path[0])
  {}

  /** Storing a fresh id in an empty slot of its key's primary bucket. */
  lemma PlaceKeeps<K>(slots: seq<Slot>, nb: nat, keys: seq<K>, hash: K -> uint32, p: nat, id: uint32, k: K)
    requires Sized(slots, nb) && AllPlaced(slots, nb, keys, hash) && IdsUnique(slots)
    requires p < |slots| && p / 4 == BucketOf(hash(k), nb) && 1 <= id < |keys| && id !in Live(slots)
    requires Empty(slots[p])
    ensures var s := slots[p := Slot(hash(k), Secondary(hash(k)), id)];
            AllPlaced(s, nb, keys[id := k], hash) && IdsUnique(s) && Live(s) == Live(slots) + {id}
  {
    var h := hash(k);
    var s := slots[p := Slot(h, Secondary(h), id)];
    SecondaryDiffers(h);
    forall r: nat | Occupied(slots, r) ensures slots[r].keyIdx in Live(slots) {}
    forall r: nat | Occupied(s, r) ensures Placed(s[r], r, nb, keys[id := k], hash) {
      if r != p { assert Occupied(slots, r) && Placed(slots[r], r, nb, keys, hash); }
    }
    forall i | i in Live(slots) + {id} ensures i in Live(s) {
      if i == id {
        assert s[p].keyIdx == id && !Empty(s[p]);
      } else {
        var r: nat :| r < |slots| && !Empty(slots[r]) && slots[r].keyIdx == i;
        assert r < |s| && !Empty(s[r]) && s[r].keyIdx == i;
      }
    }
    forall i | i in Live(s) ensures i in Live(slots) + {id} {
      var r: nat :| r < |s| && !Empty(s[r]) && s[r].keyIdx == i;
      if r != p { assert Occupied(slots, r); }
    }
    forall r: nat, r': nat | Occupied(s, r) && Occupied(s, r') && r != r' ensures s[r].keyIdx != s[r'].keyIdx {
      if r != p { assert Occupied(slots, r); }
      if r' != p { assert Occupied(slots, r'); }
    }
  }

  /** Overwriting the key of an id not in use. */
  lemma StoreKeeps<K>(slots: seq<Slot>, nb: nat, keys: seq<K>, hash: K -> uint32, id: uint32, k: K)
    requires Sized(slots, nb) && AllPlaced(slots, nb, keys, hash) && id < |keys| && id !in Live(slots)
    ensures AllPlaced(slots, nb, keys[id := k], hash)
  {}

  lemma ClearKeeps<K>(slots: seq<Slot>, nb: nat, keys: seq<K>, hash: K -> uint32, p: nat)
    requires Sized(slots, nb) && AllPlaced(slots, nb, keys, hash) && IdsUnique(slots) && Occupied(slots, p)
    ensures var s := slots[p := Cleared(slots[p])];
            AllPlaced(s, nb, keys, hash) && IdsUnique(s) && Live(s) == Live(slots) - {slots[p].keyIdx}
  {
    var id := slots[p].keyIdx;
    var s := slots[p := Cleared(slots[p])];
    forall r: nat | Occupied(s, r) ensures Occupied(slots, r) && s[r] == slots[r] && slots[r].keyIdx != id {
      assert r != p;
    }
    forall i | i in Live(slots) - {id} ensures i in Live(s) {
      var r: nat :| r < |slots| && !Empty(slots[r]) && slots[r].keyIdx == i;
      assert r < |s| && !Empty(s[r]) && s[r].keyIdx == i;
    }
    forall i | i in Live(s) ensures i in Live(slots) - {id} {
      var r: nat :| r < |s| && !Empty(s[r]) && s[r].keyIdx == i;
      assert Occupied(s, r);
    }
  }

  // ---- the free queue -------------------------------------------------------------------

  lemma FreeRotated(free: seq<uint32>, live: set<uint32>, n: nat)
    requires FreeExact(free, live, n) && |free| > 0
    ensures FreeExact(free[1..] + [free[0]], live, n)
  {
    HeadApart(free);
    var f := free[1..] + [free[0]];
    forall id: uint32 ensures id in f <==> id in free {}
  }

  /** The first of some ids is not among the others. */
  lemma HeadApart(free: seq<uint32>)
    requires |free| > 0 && NoRepeats(free)
    ensures NoRepeats(free[1..]) && free[0] !in free[1..] && free[0] in free
    ensures forall id: uint32 :: id in free <==> id == free[0] || id in free[1..]
  {
    assert free == [free[0]] + free[1..];
    forall i | 0 <= i < |free[1..]| ensures free[1..][i] != free[0] {
      assert free[1..][i] == free[i + 1];
    }
  }

  lemma FreeTaken(free: seq<uint32>, live: set<uint32>, n: nat)
    requires FreeExact(free, live, n) && |free| > 0
    ensures FreeExact(free[1..], live + {free[0]}, n)
  {
    HeadApart(free);
    forall id: uint32 ensures id in free[1..] <==> 1 <= id < n && id !in live + {free[0]} {
      assert id in free <==> 1 <= id < n && id !in live;
    }
  }

  lemma FreeReturned(free: seq<uint32>, live: set<uint32>, n: nat, id: uint32)
    requires FreeExact(free, live, n) && id in live && 1 <= id < n
    ensures FreeExact(free + [id], live - {id}, n)
  {
    assert id !in free;
    forall x: uint32 ensures x in free + [id] <==> 1 <= x < n && x !in live - {id} {
      assert x in free <==> 1 <= x < n && x !in live;
    }
  }

  // ---- operations ------------------------------------------------------------------------

  /** Slot p is in use for key k. */
  predicate Holds<K(==), D>(t: Table<K, D>, p: nat, k: K) {
    Occupied(t.slots, p) && t.slots[p].keyIdx < |t.keys| && t.keys[t.slots[p].keyIdx] == k
  }

  ghost function Find<K, D>(t: Table<K, D>, k: K): (r: Option<nat>)
    ensures r.Some? ==> Holds(t, r.value, k)
    ensures r.None? ==> forall p: nat :: !Holds(t, p, k)
  {
    if p: nat :| Holds(t, p, k) then Some(p) else None
  }

  lemma FindInMap<K, D>(t: Table<K, D>, hash: K -> uint32, k: K)
    requires Inv(t, hash)
    ensures k in Abs(t) <==> Find(t, k).Some?
    ensures k in Abs(t) ==> var id := t.slots[Find(t, k).value].keyIdx; Abs(t)[k] == Stored(id - 1, t.datas[id])
  {
    var r := Find(t, k);
    if r.Some? {
      MapAt(Live(t.slots), t.keys, t.datas, t.slots[r.value].keyIdx);
    }
    if k in Abs(t) {
      var id := MapKey(Live(t.slots), t.keys, t.datas, k);
      var p: nat :| p < |t.slots| && !Empty(t.slots[p]) && t.slots[p].keyIdx == id;
      assert Holds(t, p, k);
    }
  }

  /** Where a key can be: at one slot only, of its primary or secondary bucket,
      with its hashes in the order of that bucket. */
  lemma HoldsWhere<K, D>(t: Table<K, D>, hash: K -> uint32, k: K, p: nat)
    requires Inv(t, hash) && Holds(t, p, k)
    ensures Find(t, k) == Some(p)
    ensures var h := hash(k); var s := t.slots[p];
            (s.current == h && s.alt == Secondary(h) && p / 4 == BucketOf(h, t.nb)) ||
            (s.current == Secondary(h) && s.alt == h && p / 4 == BucketOf(Secondary(h), t.nb))
  {}

  /** Slot p is in use for key k with the given current hash. */
  predicate HeldAs<K(==), D>(t: Table<K, D>, p: nat, k: K, current: uint32) {
    Holds(t, p, k) && t.slots[p].current == current
  }

  /** No slot of bucket b holds key k with the given current hash. */
  ghost predicate NotIn<K, D>(t: Table<K, D>, b: nat, k: K, current: uint32) {
    forall i: nat :: i < 4 ==> !HeldAs(t, At(b, i), k, current)
  }

  lemma HeldAsSigned<K, D>(t: Table<K, D>, hash: K -> uint32, k: K, p: nat)
    requires Inv(t, hash)
    ensures HeldAs(t, p, k, hash(k)) ==> t.slots[p].alt == Secondary(hash(k))
    ensures HeldAs(t, p, k, Secondary(hash(k))) ==> t.slots[p].alt == hash(k)
  {}

  /** Two buckets searched in vain mean the key is absent. */
  lemma NotFound<K, D>(t: Table<K, D>, hash: K -> uint32, k: K)
    requires Inv(t, hash)
    requires NotIn(t, BucketOf(hash(k), t.nb), k, hash(k))
    requires NotIn(t, BucketOf(Secondary(hash(k)), t.nb), k, Secondary(hash(k)))
    ensures Find(t, k) == None
  {
    forall p: nat ensures !Holds(t, p, k) {
      var b := p / 4;
      assert p == At(b, p % 4);
      if Holds(t, p, k) { HoldsWhere(t, hash, k, p); }
    }
  }

  lemma OccupiedIds<K, D>(t: Table<K, D>, hash: K -> uint32)
    requires Inv(t, hash)
    ensures forall p: nat :: Occupied(t.slots, p) ==> 1 <= t.slots[p].keyIdx < |t.keys|
  {}

  lemma OccupiedNotEmptyMap<K, D>(t: Table<K, D>, hash: K -> uint32, p: nat)
    requires Inv(t, hash) && Occupied(t.slots, p)
    ensures |Abs(t)| > 0 && 1 <= t.slots[p].keyIdx < |t.keys|
  {
    assert Placed(t.slots[p], p, t.nb, t.keys, hash);
    MapAt(Live(t.slots), t.keys, t.datas, t.slots[p].keyIdx);
  }

  function NoFlags(n: nat): seq<bool> { seq(n, _ => false) }

  lemma FreeHead<K, D>(t: Table<K, D>, hash: K -> uint32)
    requires Inv(t, hash) && |t.free| > 0
    ensures 1 <= t.free[0] < |t.keys| && t.free[0] !in Live(t.slots)
  {
    assert t.free[0] in t.free;
  }

  /** The entry a key is first stored as. */
  function Entry<K>(hash: K -> uint32, k: K, id: uint32): Slot {
    Slot(hash(k), Secondary(hash(k)), id)
  }

  /** Bucket b has an empty slot, or displacing entries can free one. */
  ghost predicate HasPlace(slots: seq<Slot>, nb: nat, b: nat)
    requires Sized(slots, nb) && b < nb
  {
    FirstEmpty(slots, b, 0) < 4 || SearchPath(slots, NoFlags(|slots|), nb, b).Some?
  }

  /** Storing an entry in bucket b: in its first empty slot, else in the slot freed
      there by displacing entries. */
  ghost function PlaceIn(slots: seq<Slot>, nb: nat, b: nat, entry: Slot): (r: seq<Slot>)
    requires Sized(slots, nb) && b < nb && HasPlace(slots, nb, b)
    ensures |r| == |slots|
  {
    var i := FirstEmpty(slots, b, 0);
    if i < 4 then slots[At(b, i) := entry]
    else
      var path := SearchPath(slots, NoFlags(|slots|), nb, b).value;
      SearchPathCorrect(slots, NoFlags(|slots|), nb, b);
      Displace(slots, path)[path[0] := entry]
  }

  ghost function Insert<K, D>(t: Table<K, D>, hash: K -> uint32, k: K, d: D): (Table<K, D>, int)
    requires Shape(t) && |t.free| > 0 && t.free[0] < |t.keys|
  {
    var id := t.free[0];
    var stored := t.(keys := t.keys[id := k], datas := t.datas[id := d]);
    var b := BucketOf(hash(k), t.nb);
    if HasPlace(t.slots, t.nb, b)
    then (stored.(slots := PlaceIn(t.slots, t.nb, b, Entry(hash, k, id)), free := t.free[1..]), id as int - 1)
    else (stored.(free := t.free[1..] + [id]), -ENOSPC)
  }

  lemma InsertIs<K, D>(t: Table<K, D>, hash: K -> uint32, k: K, d: D, t': Table<K, D>, ok: bool)
    requires Shape(t) && |t.free| > 0 && t'.nb == t.nb && t.free[0] < |t.keys|
    requires t'.keys == t.keys[t.free[0] := k] && t'.datas == t.datas[t.free[0] := d]
    requires ok == HasPlace(t.slots, t.nb, BucketOf(hash(k), t.nb))
    requires t'.slots == if ok then PlaceIn(t.slots, t.nb, BucketOf(hash(k), t.nb), Entry(hash, k, t.free[0]))
                         else t.slots
    requires t'.free == if ok then t.free[1..] else t.free[1..] + [t.free[0]]
    ensures t' == Insert(t, hash, k, d).0 && Insert(t, hash, k, d).1 == if ok then t.free[0] as int - 1 else -ENOSPC
  {}

  /** __cuckoohash_add_key_with_hash: a free slot is taken before anything else,
      and queued again when the key turns out to be present. */
  ghost function Add<K, D>(t: Table<K, D>, hash: K -> uint32, k: K, d: D): (Table<K, D>, int)
    requires Inv(t, hash)
  {
    if |t.free| == 0 then (t, -ENOSPC)
    else
      var r := Find(t, k);
      if r.Some? then
        var id := t.slots[r.value].keyIdx;
        (t.(free := t.free[1..] + [t.free[0]], datas := t.datas[id := d]), id - 1)
      else
        FreeHead(t, hash);
        Insert(t, hash, k, d)
  }

  ghost function Lookup<K, D>(t: Table<K, D>, k: K): (int, Option<D>)
    requires Shape(t)
  {
    var r := Find(t, k);
    if r.Some? then
      var id := t.slots[r.value].keyIdx;
      (id - 1, Some(t.datas[id]))
    else (-ENOENT, None)
  }

  ghost function Delete<K, D>(t: Table<K, D>, k: K): (Table<K, D>, int) {
    var r := Find(t, k);
    if r.Some? then
      var s := t.slots[r.value];
      (t.(slots := t.slots[r.value := Cleared(s)], free := t.free + [s.keyIdx]), s.keyIdx - 1)
    else (t, -ENOENT)
  }

  // ---- what they mean for the map -----------------------------------------------------

  /** Ids are split between the map and the free queue, so the queue is empty
      exactly when the map is full. */
  lemma Conservation<K, D>(t: Table<K, D>, hash: K -> uint32)
    requires Inv(t, hash)
    ensures |Abs(t)| + |t.free| == |t.keys| - 1
  {
    var live := Live(t.slots);
    forall id | id in live ensures 1 <= id < |t.keys| {
      var p: nat :| p < |t.slots| && !Empty(t.slots[p]) && t.slots[p].keyIdx == id;
      assert Occupied(t.slots, p) && Placed(t.slots[p], p, t.nb, t.keys, hash);
    }
    FreeCount(t.free, live, |t.keys|);
    KeyCount(live, t.keys);
    assert Abs(t).Keys == KeySet(live, t.keys);
  }

  lemma {:induction false} KeyCount<K>(live: set<uint32>, keys: seq<K>)
    requires KeysUnique(live, keys) && forall id :: id in live ==> id < |keys|
    ensures |KeySet(live, keys)| == |live|
  {
    if live != {} {
      var id :| id in live;
      KeyCount(live - {id}, keys);
      assert KeySet(live, keys) == KeySet(live - {id}, keys) + {keys[id]};
    }
  }

  function Ids(n: nat): (s: set<uint32>)
    requires n <= 0x1_0000_0000
    ensures forall id :: id in s <==> 1 <= id < n
    ensures |s| == if n == 0 then 0 else n - 1
  {
    if n <= 1 then {} else Ids(n - 1) + {n - 1}
  }

  function Elements(s: seq<uint32>): set<uint32> { set x | x in s }

  lemma {:induction false} ElementCount(s: seq<uint32>)
    requires NoRepeats(s)
    ensures |Elements(s)| == |s|
  {
    if s == [] {
      assert Elements(s) == {};
    } else {
      ElementCount(s[1..]);
      assert s[0] !in Elements(s[1..]);
      assert Elements(s) == Elements(s[1..]) + {s[0]};
    }
  }

  lemma FreeCount(free: seq<uint32>, live: set<uint32>, n: nat)
    requires FreeExact(free, live, n) && 1 <= n <= 0x1_0000_0000
    requires forall id :: id in live ==> 1 <= id < n
    ensures |live| + |free| == n - 1
  {
    ElementCount(free);
    assert live * Elements(free) == {};
    assert Ids(n) == live + Elements(free);
    assert |live + Elements(free)| == |live| + |Elements(free)|;
  }

  /** One add, as seen by the map: `n` keys fit.  A full table refuses even to
      update; otherwise a present key is updated in place; a new key is stored
      at a position no other key has, or refused with nothing changed. */
  ghost predicate AddMeans<K, D>(m: map<K, Stored<D>>, m': map<K, Stored<D>>, n: nat, k: K, d: D, ret: int) {
    if |m| == n then ret == -28 && m' == m
    else if k in m then ret == m[k].pos && m' == m[k := Stored(ret, d)]
    else
      || (ret == -28 && m' == m)
      || (0 <= ret < n && (forall x :: x in m ==> m[x].pos != ret) && m' == m[k := Stored(ret, d)])
  }

  ghost predicate DeleteMeans<K, D>(m: map<K, Stored<D>>, m': map<K, Stored<D>>, k: K, ret: int) {
    if k in m then ret == m[k].pos && m' == m - {k} else ret == -2 && m' == m
  }

  ghost predicate LookupMeans<K, D>(m: map<K, Stored<D>>, k: K, ret: int, data: Option<D>) {
    if k in m then ret == m[k].pos && data == Some(m[k].data) else ret == -2 && data == None
  }

  /** An entry is stored over an empty slot of its bucket, in slots that hold what
      they held before. */
  lemma PlaceInCorrect<K>(slots: seq<Slot>, nb: nat, keys: seq<K>, hash: K -> uint32, b: nat, entry: Slot)
    returns (base: seq<Slot>, p: nat)
    requires Sized(slots, nb) && b < nb && AllPlaced(slots, nb, keys, hash) && IdsUnique(slots)
    requires HasPlace(slots, nb, b)
    ensures p < |base| && Empty(base[p]) && p / 4 == b && PlaceIn(slots, nb, b, entry) == base[p := entry]
    ensures HoleAt(slots, base, p, nb, keys, hash)
  {
    var i := FirstEmpty(slots, b, 0);
    if i < 4 {
      base, p := slots, At(b, i);
      assert base[p := Cleared(base[p])] == base;
    } else {
      SearchPathCorrect(slots, NoFlags(|slots|), nb, b);
      var path := SearchPath(slots, NoFlags(|slots|), nb, b).value;
      DisplaceKeeps(slots, nb, keys, hash, b, path);
      base, p := HoleCleared(slots, Displace(slots, path), path[0], nb, keys, hash, entry);
    }
  }

  lemma HoleCleared<K>(slots: seq<Slot>, d: seq<Slot>, hole: nat, nb: nat, keys: seq<K>, hash: K -> uint32, entry: Slot)
    returns (base: seq<Slot>, p: nat)
    requires HoleAt(slots, d, hole, nb, keys, hash)
    ensures p == hole < |base| == |d| && Empty(base[p]) && base[p := entry] == d[p := entry]
    ensures HoleAt(slots, base, p, nb, keys, hash)
  {
    p := hole;
    base := d[p := Cleared(d[p])];
    assert base[p := Cleared(base[p])] == base && base[p := entry] == d[p := entry];
  }

  /** The final step of a successful insertion, from a table whose slots have an
      empty slot p in the key's primary bucket. */
  lemma InsertAt<K, D>(t: Table<K, D>, hash: K -> uint32, slots: seq<Slot>, p: nat, k: K, d: D, id: uint32)
    requires Inv(t, hash) && |t.free| > 0 && k !in Abs(t)
    requires id == t.free[0] && 1 <= id < |t.keys| && id !in Live(t.slots)
    requires HoleAt(t.slots, slots, p, t.nb, t.keys, hash) && Empty(slots[p]) && p / 4 == BucketOf(hash(k), t.nb)
    ensures var t' := Table(t.nb, slots[p := Entry(hash, k, id)], t.keys[id := k], t.datas[id := d], t.free[1..]);
            Inv(t', hash) && Abs(t') == Abs(t)[k := Stored(id - 1, d)]
  {
    assert slots[p := Cleared(slots[p])] == slots;
    PlaceKeeps(slots, t.nb, t.keys, hash, p, id, k);
    MapInsert(Live(slots), t.keys, t.datas, id, k, d);
    FreeTaken(t.free, Live(slots), |t.keys|);
  }

  lemma FreePositions<K, D>(t: Table<K, D>, hash: K -> uint32, id: uint32)
    requires Inv(t, hash) && id !in Live(t.slots)
    ensures forall x :: x in Abs(t) ==> Abs(t)[x].pos != id - 1
  {}

  ghost predicate InsertMeans<K, D>(t: Table<K, D>, hash: K -> uint32, t': Table<K, D>, k: K, d: D, ret: int)
    requires |t.keys| == |t.datas| && |t.free| > 0
  {
    && Inv(t', hash) && |t'.keys| == |t.keys|
    && if ret == -28 then Abs(t') == Abs(t) && t'.slots == t.slots
       else ret + 1 == t.free[0] && Abs(t') == Abs(t)[k := Stored(ret, d)]
  }

  lemma InsertCorrect<K, D>(t: Table<K, D>, hash: K -> uint32, k: K, d: D)
    requires Inv(t, hash) && |t.free| > 0 && k !in Abs(t) && t.free[0] < |t.keys|
    ensures InsertMeans(t, hash, Insert(t, hash, k, d).0, k, d, Insert(t, hash, k, d).1)
  {
    FreeHead(t, hash);
    if HasPlace(t.slots, t.nb, BucketOf(hash(k), t.nb)) {
      InsertPlaced(t, hash, k, d, t.free[0]);
    } else {
      RefusedAt(t, hash, k, d, t.free[0]);
    }
  }

  lemma InsertPlaced<K, D>(t: Table<K, D>, hash: K -> uint32, k: K, d: D, id: uint32)
    requires Inv(t, hash) && |t.free| > 0 && k !in Abs(t)
    requires id == t.free[0] && 1 <= id < |t.keys| && id !in Live(t.slots)
    requires HasPlace(t.slots, t.nb, BucketOf(hash(k), t.nb))
    ensures InsertMeans(t, hash, Insert(t, hash, k, d).0, k, d, Insert(t, hash, k, d).1)
  {
    var base, p := PlaceInCorrect(t.slots, t.nb, t.keys, hash, BucketOf(hash(k), t.nb), Entry(hash, k, id));
    InsertAt(t, hash, base, p, k, d, id);
    var t' := Table(t.nb, base[p := Entry(hash, k, id)], t.keys[id := k], t.datas[id := d], t.free[1..]);
    assert InsertMeans(t, hash, t', k, d, id - 1);
    assert Insert(t, hash, k, d).0 == t';
  }

  /** A failed insertion puts the id back at the end of the ring. */
  lemma RefusedAt<K, D>(t: Table<K, D>, hash: K -> uint32, k: K, d: D, id: uint32)
    requires Inv(t, hash) && |t.free| > 0
    requires id == t.free[0] && id < |t.keys| && id !in Live(t.slots)
    requires !HasPlace(t.slots, t.nb, BucketOf(hash(k), t.nb))
    ensures InsertMeans(t, hash, Insert(t, hash, k, d).0, k, d, Insert(t, hash, k, d).1)
  {
    StoreKeeps(t.slots, t.nb, t.keys, hash, id, k);
    MapFrame(Live(t.slots), t.keys, t.datas, id, k, d);
    FreeRotated(t.free, Live(t.slots), |t.keys|);
    var t' := Table(t.nb, t.slots, t.keys[id := k], t.datas[id := d], t.free[1..] + [id]);
    InvOf(t', hash, t.slots, t'.keys, t'.free);
    assert Abs(t') == Abs(t);
    InsertIs(t, hash, k, d, t', false);
  }

  lemma InvOf<K, D>(t: Table<K, D>, hash: K -> uint32, slots: seq<Slot>, keys: seq<K>, free: seq<uint32>)
    requires Shape(t) && t.slots == slots && t.keys == keys && t.free == free
    requires AllPlaced(slots, t.nb, keys, hash) && IdsUnique(slots)
    requires KeysUnique(Live(slots), keys) && FreeExact(free, Live(slots), |keys|)
    ensures Inv(t, hash)
  {}

  lemma AddCorrect<K, D>(t: Table<K, D>, hash: K -> uint32, k: K, d: D)
    requires Inv(t, hash)
    ensures var (t', ret) := Add(t, hash, k, d);
            Inv(t', hash) && |t'.keys| == |t.keys| && AddMeans(Abs(t), Abs(t'), |t.keys| - 1, k, d, ret)
  {
    Conservation(t, hash);
    FindInMap(t, hash, k);
    if |t.free| > 0 {
      var r := Find(t, k);
      if r.Some? {
        MapUpdate(Live(t.slots), t.keys, t.datas, t.slots[r.value].keyIdx, d);
        FreeRotated(t.free, Live(t.slots), |t.keys|);
      } else {
        FreeHead(t, hash);
        InsertCorrect(t, hash, k, d);
        FreePositions(t, hash, t.free[0]);
      }
    }
  }

  /** Whether add finds a place is settled by ids and the search. */
  lemma RefusedWithoutPlace<K, D>(t: Table<K, D>, hash: K -> uint32, k: K, d: D)
    requires Inv(t, hash) && k !in Abs(t)
    ensures Add(t, hash, k, d).1 == -28 <==>
            |Abs(t)| == |t.keys| - 1 || !HasPlace(t.slots, t.nb, BucketOf(hash(k), t.nb))
  {
    Conservation(t, hash);
    FindInMap(t, hash, k);
    if |t.free| > 0 { FreeHead(t, hash); }
  }

  lemma LookupCorrect<K, D>(t: Table<K, D>, hash: K -> uint32, k: K)
    requires Inv(t, hash)
    ensures LookupMeans(Abs(t), k, Lookup(t, k).0, Lookup(t, k).1)
  {
    FindInMap(t, hash, k);
  }

  lemma DeleteCorrect<K, D>(t: Table<K, D>, hash: K -> uint32, k: K)
    requires Inv(t, hash)
    ensures var (t', ret) := Delete(t, k);
            Inv(t', hash) && |t'.keys| == |t.keys| && DeleteMeans(Abs(t), Abs(t'), k, ret)
  {
    FindInMap(t, hash, k);
    var r := Find(t, k);
    if r.Some? {
      var p := r.value;
      var id := t.slots[p].keyIdx;
      assert Placed(t.slots[p], p, t.nb, t.keys, hash);
      ClearKeeps(t.slots, t.nb, t.keys, hash, p);
      MapDelete(Live(t.slots), t.keys, t.datas, id);
      FreeReturned(t.free, Live(t.slots), |t.keys|, id);
    }
  }

  // ---- creation ----------------------------------------------------------------------------

  lemma EmptyTable<K, D>(t: Table<K, D>, hash: K -> uint32)
    requires Shape(t) && forall p :: 0 <= p < |t.slots| ==> Empty(t.slots[p])
    requires t.free == seq(|t.keys| - 1, i => i + 1)
    ensures Inv(t, hash) && Abs(t) == map[]
  {
    assert Live(t.slots) == {};
    forall id: uint32 | 1 <= id < |t.keys| ensures id in t.free {
      assert t.free[id - 1] == id;
    }
    assert KeySet(Live(t.slots), t.keys) == {};
  }

  /** The buckets of a table for n keys: a power of two of slots, the least not
      below n. */
  lemma RoundUpBuckets(n: uint32)
    requires 8 <= n <= 0x2000_0000
    ensures 4 * (RoundUp2(n) / 4) == RoundUp2(n) && IsPow2(RoundUp2(n)) && n <= RoundUp2(n) < 2 * n
  {
    RoundUp2Correct(n);
    Quartered(n, RoundUp2(n));
  }

  lemma Quartered(n: nat, r: nat)
    requires 8 <= n <= r && IsPow2(r) && forall j: nat :: n <= Pow2(j) ==> r <= Pow2(j)
    ensures 4 * (r / 4) == r && r < 2 * n
  {
    var k: nat :| r == Pow2(k);
    Quarter(k);
    var half := Pow2(k - 1);
    assert n <= half ==> r <= half;
  }

  lemma Quarter(k: nat)
    requires Pow2(k) >= 8
    ensures k >= 3 && Pow2(k) == 4 * Pow2(k - 2) == 2 * Pow2(k - 1)
  {}
}
