/** Whole runs of a cuckoo table: refinement of a finite map, positions that stay
    put, the walk over all entries, and when a new key is refused. */
module CuckooRuns {
  import opened Bits
  import opened CuckooSearch
  import opened CuckooModel
  import opened CuckooOps

  datatype Op<K, D> = AddOp(key: K, data: D) | DeleteOp(key: K) | LookupOp(key: K)

  datatype Result<D> = Result(ret: int, data: Option<D>)

  // ---- runs of the table -----------------------------------------------------------------

  ghost function Exec<K, D>(t: Table<K, D>, hash: K -> uint32, op: Op<K, D>): (Table<K, D>, Result<D>)
    requires Inv(t, hash)
  {
    match op
    case AddOp(k, d) => var (t', ret) := Add(t, hash, k, d); (t', Result(ret, None))
    case DeleteOp(k) => var (t', ret) := Delete(t, k); (t', Result(ret, None))
    case LookupOp(k) => var (ret, data) := Lookup(t, k); (t, Result(ret, data))
  }

  lemma ExecKeeps<K, D>(t: Table<K, D>, hash: K -> uint32, op: Op<K, D>)
    requires Inv(t, hash)
    ensures Inv(Exec(t, hash, op).0, hash) && |Exec(t, hash, op).0.keys| == |t.keys|
  {
    match op
    case AddOp(k, d) => AddCorrect(t, hash, k, d);
    case DeleteOp(k) => DeleteCorrect(t, hash, k);
    case LookupOp(k) =>
  }

  /** A run: the tables passed through, from one that satisfies the invariant, and
      the result of each operation. */
  ghost predicate IsRun<K, D>(ts: seq<Table<K, D>>, hash: K -> uint32, ops: seq<Op<K, D>>, rs: seq<Result<D>>) {
    && |ts| == |ops| + 1 && |rs| == |ops| && Inv(ts[0], hash)
    && forall i :: 0 <= i < |ops| && Inv(ts[i], hash) ==> Steps(ts[i], hash, ops[i], ts[i + 1], rs[i])
  }

  ghost predicate Steps<K, D>(t: Table<K, D>, hash: K -> uint32, op: Op<K, D>, t': Table<K, D>, res: Result<D>)
    requires Inv(t, hash)
  {
    t' == Exec(t, hash, op).0 && res == Exec(t, hash, op).1
  }

  // ---- runs of the map -------------------------------------------------------------------

  /** The results a map of at most n keys may give. */
  ghost predicate Allowed<K, D>(m: map<K, Stored<D>>, n: nat, op: Op<K, D>, res: Result<D>) {
    match op
    case AddOp(k, d) => AddMeans(m, Next(m, op, res), n, k, d, res.ret)
    case DeleteOp(k) => DeleteMeans(m, Next(m, op, res), k, res.ret)
    case LookupOp(k) => LookupMeans(m, k, res.ret, res.data)
  }

  /** The map after an operation with a given result. */
  ghost function Next<K, D>(m: map<K, Stored<D>>, op: Op<K, D>, res: Result<D>): map<K, Stored<D>> {
    match op
    case AddOp(k, d) => if res.ret >= 0 then m[k := Stored(res.ret, d)] else m
    case DeleteOp(k) => m - {k}
    case LookupOp(_) => m
  }

  lemma ExecRefines<K, D>(t: Table<K, D>, hash: K -> uint32, op: Op<K, D>)
    requires Inv(t, hash)
    ensures Inv(Exec(t, hash, op).0, hash)
    ensures var (t', res) := Exec(t, hash, op);
            Allowed(Abs(t), |t.keys| - 1, op, res) && Abs(t') == Next(Abs(t), op, res)
  {
    match op
    case AddOp(k, d) => AddCorrect(t, hash, k, d); PositionsBounded(t, hash);
    case DeleteOp(k) => DeleteCorrect(t, hash, k); assert k !in Abs(t) ==> Abs(t) - {k} == Abs(t);
    case LookupOp(k) => LookupCorrect(t, hash, k);
  }

  lemma {:induction false} RunKeeps<K, D>(ts: seq<Table<K, D>>, hash: K -> uint32, ops: seq<Op<K, D>>,
                                          rs: seq<Result<D>>, i: nat)
    requires IsRun(ts, hash, ops, rs) && i < |ts|
    ensures Inv(ts[i], hash) && |ts[i].keys| == |ts[0].keys|
  {
    if i > 0 {
      RunKeeps(ts, hash, ops, rs, i - 1);
      ExecKeeps(ts[i - 1], hash, ops[i - 1]);
    }
  }

  /** From a table to the next, the map makes an allowed step with the result given. */
  ghost predicate MapStep<K, D>(t: Table<K, D>, hash: K -> uint32, op: Op<K, D>, res: Result<D>, t': Table<K,
                                D>, n: nat) {
    && Inv(t, hash) && Inv(t', hash)
    && Allowed(Abs(t), n, op, res) && Abs(t') == Next(Abs(t), op, res)
  }

  /** Every run of the table, whatever the hash function and however many entries
      are displaced, is a run of a finite map: each result is one the map allows
      and each table stands for the map that result leads to. */
  lemma RunRefines<K, D>(ts: seq<Table<K, D>>, hash: K -> uint32, ops: seq<Op<K, D>>, rs: seq<Result<D>>)
    requires IsRun(ts, hash, ops, rs)
    ensures forall i :: 0 <= i < |ops| ==> MapStep(ts[i], hash, ops[i], rs[i], ts[i + 1], |ts[0].keys| - 1)
  {
    forall i | 0 <= i < |ops| ensures MapStep(ts[i], hash, ops[i], rs[i], ts[i + 1], |ts[0].keys| - 1) {
      StepRefines(ts, hash, ops, rs, i);
    }
  }

  lemma StepRefines<K, D>(ts: seq<Table<K, D>>, hash: K -> uint32, ops: seq<Op<K, D>>, rs: seq<Result<D>>, i: nat)
    requires IsRun(ts, hash, ops, rs) && i < |ops|
    ensures MapStep(ts[i], hash, ops[i], rs[i], ts[i + 1], |ts[0].keys| - 1)
  {
    RunKeeps(ts, hash, ops, rs, i);
    ExecRefines(ts[i], hash, ops[i]);
  }

  // ---- positions ---------------------------------------------------------------------------

  lemma PositionsBounded<K, D>(t: Table<K, D>, hash: K -> uint32)
    requires Inv(t, hash)
    ensures forall k :: k in Abs(t) ==> 0 <= Abs(t)[k].pos < |t.keys| - 1
  {}

  /** No two keys share a position. */
  lemma PositionsUnique<K, D>(t: Table<K, D>, hash: K -> uint32, k: K, k': K)
    requires Inv(t, hash) && k in Abs(t) && k' in Abs(t) && k != k'
    ensures Abs(t)[k].pos != Abs(t)[k'].pos
  {
    var live := Live(t.slots);
    var id := MapKey(live, t.keys, t.datas, k);
    var id' := MapKey(live, t.keys, t.datas, k');
    MapAt(live, t.keys, t.datas, id);
    MapAt(live, t.keys, t.datas, id');
  }

  ghost predicate IsAt<K, D>(t: Table<K, D>, hash: K -> uint32, k: K, pos: int) {
    Inv(t, hash) && k in Abs(t) && Abs(t)[k].pos == pos
  }

  /** A key keeps its position through every run that does not delete it. */
  lemma {:induction false} PositionKept<K, D>(ts: seq<Table<K, D>>, hash: K -> uint32, ops: seq<Op<K, D>>,
                                              rs: seq<Result<D>>, k: K, pos: int, i: nat)
    requires IsRun(ts, hash, ops, rs) && IsAt(ts[0], hash, k, pos) && DeleteOp(k) !in ops && i < |ts|
    ensures IsAt(ts[i], hash, k, pos)
    decreases i
  {
    if i > 0 {
      var j: nat := i - 1;
      PositionKept(ts, hash, ops, rs, k, pos, j);
      PositionStep(ts, hash, ops, rs, k, pos, j, i);
    }
  }

  lemma PositionStep<K, D>(ts: seq<Table<K, D>>, hash: K -> uint32, ops: seq<Op<K, D>>,
                           rs: seq<Result<D>>, k: K, pos: int, j: nat, i: nat)
    requires IsRun(ts, hash, ops, rs) && i == j + 1 < |ts| && ops[j] != DeleteOp(k) && IsAt(ts[j], hash, k, pos)
    ensures IsAt(ts[i], hash, k, pos)
  {
    StepRefines(ts, hash, ops, rs, j);
    StepKeepsPosition(ts[j], hash, ops[j], rs[j], ts[i], |ts[0].keys| - 1, k);
  }

  lemma StepKeepsPosition<K, D>(t: Table<K, D>, hash: K -> uint32, op: Op<K, D>, res: Result<D>, t': Table<K, D>,
                                n: nat, k: K)
    requires MapStep(t, hash, op, res, t', n) && k in Abs(t) && op != DeleteOp(k)
    ensures k in Abs(t') && Abs(t')[k].pos == Abs(t)[k].pos
  {
    NextKeeps(Abs(t), n, op, res, k);
  }

  lemma NextKeeps<K, D>(m: map<K, Stored<D>>, n: nat, op: Op<K, D>, res: Result<D>, k: K)
    requires Allowed(m, n, op, res) && k in m && op != DeleteOp(k)
    ensures k in Next(m, op, res) && Next(m, op, res)[k].pos == m[k].pos
  {}

  // ---- cuckoohash_iterate -------------------------------------------------------------------

  /** The first slot in use from p on, or the number of slots. */
  function NextOccupied(slots: seq<Slot>, p: nat): (q: nat)
    requires p <= |slots|
    ensures p <= q <= |slots|
    ensures q < |slots| ==> Occupied(slots, q)
    ensures forall r :: p <= r < q ==> !Occupied(slots, r)
    decreases |slots| - p
  {
    if p == |slots| || !Empty(slots[p]) then p else NextOccupied(slots, p + 1)
  }

  /** The slots that repeated calls of iterate visit from `next` until -ENOENT. */
  function Walk(slots: seq<Slot>, next: nat): seq<nat>
    decreases |slots| - next
  {
    if next >= |slots| then []
    else
      var p := NextOccupied(slots, next);
      if p == |slots| then [] else [p] + Walk(slots, p + 1)
  }

  /** w visits every slot in use from `next` on, each once and in order. */
  ghost predicate VisitsAll(slots: seq<Slot>, next: nat, w: seq<nat>) {
    && (forall i :: 0 <= i < |w| ==> next <= w[i] && Occupied(slots, w[i]))
    && (forall i, j :: 0 <= i < j < |w| ==> w[i] < w[j])
    && (forall p: nat :: next <= p && Occupied(slots, p) ==> p in w)
  }

  lemma {:induction false} WalkVisits(slots: seq<Slot>, next: nat)
    ensures VisitsAll(slots, next, Walk(slots, next))
    decreases |slots| - next
  {
    if next < |slots| {
      var p := NextOccupied(slots, next);
      if p < |slots| {
        WalkVisits(slots, p + 1);
        VisitFirst(slots, next, p, Walk(slots, p + 1));
        WalkFirst(slots, next, p);
      }
    }
  }

  lemma WalkFirst(slots: seq<Slot>, next: nat, p: nat)
    requires next < |slots| && p == NextOccupied(slots, next) < |slots|
    ensures Walk(slots, next) == [p] + Walk(slots, p + 1)
  {}

  lemma VisitFirst(slots: seq<Slot>, next: nat, p: nat, w: seq<nat>)
    requires next <= p && Occupied(slots, p) && VisitsAll(slots, p + 1, w)
    requires forall r :: next <= r < p ==> !Occupied(slots, r)
    ensures VisitsAll(slots, next, [p] + w)
  {
    forall q: nat | next <= q && Occupied(slots, q) ensures q in [p] + w {
      if q > p { assert q in w; }
    }
  }

  /** What the walk returns at one slot: position, key and data. */
  ghost function Item<K, D>(t: Table<K, D>, p: nat): (K, Stored<D>)
    requires p < |t.slots| && t.slots[p].keyIdx < |t.keys| == |t.datas|
  {
    var id := t.slots[p].keyIdx;
    (t.keys[id], Stored(id - 1, t.datas[id]))
  }

  /** Every item of the walk from 0 is in the map. */
  lemma WalkInMap<K, D>(t: Table<K, D>, hash: K -> uint32, i: nat)
    requires Inv(t, hash) && i < |Walk(t.slots, 0)|
    ensures var p := Walk(t.slots, 0)[i];
            p < |t.slots| && 1 <= t.slots[p].keyIdx < |t.keys| && t.slots[p].keyIdx in Live(t.slots)
            && Item(t, p).0 in Abs(t) && Item(t, p).1 == Abs(t)[Item(t, p).0]
  {
    WalkVisits(t.slots, 0);
    OccupiedIds(t, hash);
    MapAt(Live(t.slots), t.keys, t.datas, t.slots[Walk(t.slots, 0)[i]].keyIdx);
  }

  /** Every key of the map is an item of the walk. */
  lemma MapInWalk<K, D>(t: Table<K, D>, hash: K -> uint32, k: K) returns (i: nat)
    requires Inv(t, hash) && k in Abs(t)
    ensures i < |Walk(t.slots, 0)| && Holds(t, Walk(t.slots, 0)[i], k)
  {
    FindInMap(t, hash, k);
    WalkVisits(t.slots, 0);
    var p := Find(t, k).value;
    assert p in Walk(t.slots, 0);
    i :| i < |Walk(t.slots, 0)| && Walk(t.slots, 0)[i] == p;
  }

  /** The walk from 0 returns every key of the map exactly once, with its position
      and data, and nothing else. */
  lemma WalkIsMap<K, D>(t: Table<K, D>, hash: K -> uint32, w: seq<nat>)
    requires Inv(t, hash) && w == Walk(t.slots, 0)
    ensures forall i :: 0 <= i < |w| ==> w[i] < |t.slots| && t.slots[w[i]].keyIdx < |t.keys|
    ensures forall i :: 0 <= i < |w| ==> Item(t, w[i]).0 in Abs(t) && Item(t, w[i]).1 == Abs(t)[Item(t, w[i]).0]
    ensures forall i, j :: 0 <= i < j < |w| ==> Item(t, w[i]).0 != Item(t, w[j]).0
    ensures forall k :: k in Abs(t) ==> exists i :: 0 <= i < |w| && Item(t, w[i]).0 == k
  {
    forall i | 0 <= i < |w|
      ensures w[i] < |t.slots| && t.slots[w[i]].keyIdx < |t.keys|
      ensures Item(t, w[i]).0 in Abs(t) && Item(t, w[i]).1 == Abs(t)[Item(t, w[i]).0]
    {
      WalkInMap(t, hash, i);
    }
    forall i, j | 0 <= i < j < |w| ensures Item(t, w[i]).0 != Item(t, w[j]).0 { WalkDistinct(t, hash, i, j); }
    forall k | k in Abs(t) ensures exists i :: 0 <= i < |w| && Item(t, w[i]).0 == k {
      var i := MapInWalk(t, hash, k);
      assert Item(t, w[i]).0 == k;
    }
  }

  lemma WalkDistinct<K, D>(t: Table<K, D>, hash: K -> uint32, i: nat, j: nat)
    requires Inv(t, hash) && i < j < |Walk(t.slots, 0)|
    ensures var w := Walk(t.slots, 0);
            w[i] < |t.slots| && t.slots[w[i]].keyIdx < |t.keys| && w[j] < |t.slots| && t.slots[w[j]].keyIdx < |t.keys|
            && Item(t, w[i]).0 != Item(t, w[j]).0
  {
    WalkInMap(t, hash, i);
    WalkInMap(t, hash, j);
    WalkVisits(t.slots, 0);
  }
}
