/** The trace aggregation of tools/cmd_dump.c: records are folded into an index from
    (port, probe) to trace slots taken from a pool, then dumped. */
module TraceTable {
  import opened Bits
  import opened RingBuffer
  import opened IdRing
  import opened CuckooSearch
  import opened CuckooModel
  import opened CuckooOps
  import opened CuckooRuns
  import opened CuckooHash

  const LOC_MAX: nat := 16
  const TRACE_MAX: uint32 := 16384
  const ERR_OUT_OF_RANGE := 2

  datatype TraceId = TraceId(portid: nat, probeid: nat)

  /** The type tag of a timestamp and the words of its union: cycles, or seconds and
      nanoseconds. */
  datatype Timestamp = Timestamp(tsType: nat, first: nat, second: nat)

  datatype Record = Record(tid: int, location: nat, probeSender: nat, probeIdx: nat, timestamp: Timestamp)

  /** The timestamps and thread ids of one trace, by location. */
  datatype Cell = Cell(timestamps: seq<Timestamp>, tids: seq<int>)

  datatype TraceData = TraceData(idx: nat, cell: Cell)

  const ZERO_TIME := Timestamp(0, 0, 0)

  function ZeroCell(): Cell {
    Cell(seq(LOC_MAX, _ => ZERO_TIME), seq(LOC_MAX, _ => 0))
  }

  predicate CellSized(c: Cell) {
    |c.timestamps| == |c.tids| == LOC_MAX
  }

  function KeyOf(r: Record): TraceId {
    TraceId(r.probeSender, r.probeIdx)
  }

  function Put(c: Cell, r: Record): (c': Cell)
    requires CellSized(c) && r.location < LOC_MAX
    ensures CellSized(c')
  {
    Cell(c.timestamps[r.location := r.timestamp], c.tids[r.location := r.tid])
  }

  // ---- what a sequence of records amounts to --------------------------------------------------

  predicate Located(rs: seq<Record>) {
    forall i :: 0 <= i < |rs| ==> rs[i].location < LOC_MAX
  }

  function PutIn(m: map<TraceId, Cell>, r: Record): map<TraceId, Cell>
    requires r.location < LOC_MAX && forall k :: k in m ==> CellSized(m[k])
  {
    var k := KeyOf(r);
    m[k := Put(if k in m then m[k] else ZeroCell(), r)]
  }

  function Replay(rs: seq<Record>): (m: map<TraceId, Cell>)
    requires Located(rs)
    ensures forall k :: k in m ==> CellSized(m[k])
  {
    if rs == [] then map[] else PutIn(Replay(rs[..|rs| - 1]), rs[|rs| - 1])
  }

  predicate HasKey(r: Record, k: TraceId) {
    r.probeSender == k.portid && r.probeIdx == k.probeid
  }

  predicate Matches(r: Record, k: TraceId, loc: nat) {
    HasKey(r, k) && r.location == loc
  }

  /** The index of the last record for a key and location, or -1. */
  function LastMatch(rs: seq<Record>, k: TraceId, loc: nat): (i: int)
    ensures -1 <= i < |rs|
    ensures i >= 0 ==> Matches(rs[i], k, loc)
    ensures forall j :: i < j < |rs| ==> !Matches(rs[j], k, loc)
  {
    if rs == [] then -1
    else if Matches(rs[|rs| - 1], k, loc) then |rs| - 1
    else LastMatch(rs[..|rs| - 1], k, loc)
  }

  /** A key is present exactly if some record had it. */
  lemma {:induction false} Present(rs: seq<Record>, k: TraceId)
    requires Located(rs)
    ensures k in Replay(rs) <==> exists i :: 0 <= i < |rs| && HasKey(rs[i], k)
  {
    if rs != [] {
      var n := |rs| - 1;
      Present(rs[..n], k);
      if !HasKey(rs[n], k) && k in Replay(rs) {
        var i :| 0 <= i < n && HasKey(rs[..n][i], k);
        assert HasKey(rs[i], k);
      }
    }
  }

  /** Each cell of a present key holds the last record for that key and location, or
      zero if there was none. */
  lemma {:induction false} LastRecordWins(rs: seq<Record>, k: TraceId, loc: nat)
    requires Located(rs) && loc < LOC_MAX && k in Replay(rs)
    ensures var i := LastMatch(rs, k, loc);
            && Replay(rs)[k].timestamps[loc] == (if i < 0 then ZERO_TIME else rs[i].timestamp)
            && Replay(rs)[k].tids[loc] == (if i < 0 then 0 else rs[i].tid)
  {
    var n := |rs| - 1;
    var init := rs[..n];
    if k in Replay(init) {
      LastRecordWins(init, k, loc);
    } else {
      forall i | 0 <= i < n ensures !Matches(rs[i], k, loc) {
        Present(init, k);
        assert !HasKey(init[i], k);
      }
    }
  }

  // ---- which records are accepted -------------------------------------------------------------

  ghost predicate PlaceFor(t: Table<TraceId, nat>, hash: TraceId -> uint32, k: TraceId)
    requires Inv(t, hash)
  {
    HasPlace(t.slots, t.nb, BucketOf(hash(k), t.nb))
  }

  /** A record is accepted if its key is present, or else if the pool has a trace slot
      and the hash table a place. */
  ghost predicate Takes(t: Table<TraceId, nat>, hash: TraceId -> uint32, free: seq<uint32>, r: Record)
    requires Inv(t, hash)
  {
    KeyOf(r) in Abs(t) || (free != [] && PlaceFor(t, hash, KeyOf(r)))
  }

  ghost function TableAfter(t: Table<TraceId, nat>, hash: TraceId -> uint32, free: seq<uint32>, r: Record)
    : (t': Table<TraceId, nat>)
    requires Inv(t, hash)
    ensures Inv(t', hash)
  {
    if KeyOf(r) in Abs(t) || free == [] then t
    else
      AddCorrect(t, hash, KeyOf(r), free[0]);
      Add(t, hash, KeyOf(r), free[0]).0
  }

  /** A slot taken from the pool is lost if the hash table has no place. */
  ghost function PoolAfter(t: Table<TraceId, nat>, free: seq<uint32>, r: Record): seq<uint32>
    requires Shape(t)
  {
    if KeyOf(r) in Abs(t) || free == [] then free else free[1..]
  }

  /** The hash table has made an addition, which succeeds if it has a place. */
  ghost predicate Linked(t: Table<TraceId, nat>, t': Table<TraceId, nat>, hash: TraceId -> uint32, k: TraceId,
                         i: nat, ret: int) {
    Inv(t, hash) && t' == Add(t, hash, k, i).0 && (ret == 0 <==> PlaceFor(t, hash, k))
  }

  /** The hash table is as it should be after a record, and `ret` tells whether the
      record was accepted. */
  ghost predicate Entered(t: Table<TraceId, nat>, t': Table<TraceId, nat>, hash: TraceId -> uint32,
                          free: seq<uint32>, r: Record, ret: int) {
    Inv(t, hash) && t' == TableAfter(t, hash, free, r) && (ret == 0 <==> Takes(t, hash, free, r))
  }

  lemma LinkedEntered(t: Table<TraceId, nat>, t': Table<TraceId, nat>, hash: TraceId -> uint32,
                      free: seq<uint32>, r: Record, ret: int)
    requires free != [] && Linked(t, t', hash, KeyOf(r), free[0], ret) && KeyOf(r) !in Abs(t)
    ensures Entered(t, t', hash, free, r, ret)
  {}

  /** The accepted ones of some records. */
  ghost function AcceptedOf(t: Table<TraceId, nat>, hash: TraceId -> uint32, free: seq<uint32>, rs: seq<Record>)
    : seq<Record>
    requires Inv(t, hash)
    decreases |rs|
  {
    if rs == [] then []
    else
      (if Takes(t, hash, free, rs[0]) then [rs[0]] else [])
        + AcceptedOf(TableAfter(t, hash, free, rs[0]), hash, PoolAfter(t, free, rs[0]), rs[1..])
  }

  /** Table and pool after some records. */
  ghost function TableOf(t: Table<TraceId, nat>, hash: TraceId -> uint32, free: seq<uint32>, rs: seq<Record>)
    : (t': Table<TraceId, nat>)
    requires Inv(t, hash)
    ensures Inv(t', hash)
    decreases |rs|
  {
    if rs == [] then t
    else TableOf(TableAfter(t, hash, free, rs[0]), hash, PoolAfter(t, free, rs[0]), rs[1..])
  }

  ghost function PoolOf(t: Table<TraceId, nat>, hash: TraceId -> uint32, free: seq<uint32>, rs: seq<Record>)
    : seq<uint32>
    requires Inv(t, hash)
    decreases |rs|
  {
    if rs == [] then free
    else PoolOf(TableAfter(t, hash, free, rs[0]), hash, PoolAfter(t, free, rs[0]), rs[1..])
  }

  // ---- what becomes of the trace slots ---------------------------------------------------------

  /** A slot is taken for the record and the hash table refuses the key. */
  ghost predicate Loses(t: Table<TraceId, nat>, hash: TraceId -> uint32, free: seq<uint32>, r: Record)
    requires Inv(t, hash)
  {
    KeyOf(r) !in Abs(t) && free != [] && !PlaceFor(t, hash, KeyOf(r))
  }

  ghost function Losses(t: Table<TraceId, nat>, hash: TraceId -> uint32, free: seq<uint32>, rs: seq<Record>): nat
    requires Inv(t, hash)
    decreases |rs|
  {
    if rs == [] then 0
    else
      (if Loses(t, hash, free, rs[0]) then 1 else 0)
        + Losses(TableAfter(t, hash, free, rs[0]), hash, PoolAfter(t, free, rs[0]), rs[1..])
  }

  /** The hash table has an id for every trace slot. */
  ghost predicate Enough(t: Table<TraceId, nat>, free: seq<uint32>)
    requires |t.keys| == |t.datas|
  {
    |Abs(t)| + |free| < |t.keys|
  }

  lemma StepConserves(t: Table<TraceId, nat>, hash: TraceId -> uint32, free: seq<uint32>, r: Record)
    requires Inv(t, hash) && Enough(t, free)
    ensures var t', free' := TableAfter(t, hash, free, r), PoolAfter(t, free, r);
            && Enough(t', free')
            && |free'| + |Abs(t')| + (if Loses(t, hash, free, r) then 1 else 0) == |free| + |Abs(t)|
  {
    if KeyOf(r) !in Abs(t) && free != [] {
      AddCorrect(t, hash, KeyOf(r), free[0]);
      RefusedWithoutPlace(t, hash, KeyOf(r), free[0]);
    }
  }

  /** Pool and index together lose exactly the slots of the keys the table refuses. */
  lemma {:induction false} SlotsConserved(t: Table<TraceId, nat>, hash: TraceId -> uint32, free: seq<uint32>,
                                          rs: seq<Record>)
    requires Inv(t, hash) && Enough(t, free)
    ensures |PoolOf(t, hash, free, rs)| + |Abs(TableOf(t, hash, free, rs))| + Losses(t, hash, free, rs)
         == |free| + |Abs(t)|
    decreases |rs|
  {
    if rs != [] {
      StepConserves(t, hash, free, rs[0]);
      SlotsConserved(TableAfter(t, hash, free, rs[0]), hash, PoolAfter(t, free, rs[0]), rs[1..]);
    }
  }

  /** Whether record i finds the table without a place for it. */
  ghost predicate LosesAt(t: Table<TraceId, nat>, hash: TraceId -> uint32, free: seq<uint32>, rs: seq<Record>, i: nat)
    requires Inv(t, hash) && i < |rs|
  {
    Loses(TableOf(t, hash, free, rs[..i]), hash, PoolOf(t, hash, free, rs[..i]), rs[i])
  }

  lemma LosesLater(t: Table<TraceId, nat>, hash: TraceId -> uint32, free: seq<uint32>, rs: seq<Record>, i: nat)
    requires Inv(t, hash) && 0 < i < |rs|
    ensures LosesAt(t, hash, free, rs, i)
       <==> LosesAt(TableAfter(t, hash, free, rs[0]), hash, PoolAfter(t, free, rs[0]), rs[1..], i - 1)
  {
    assert rs[..i][0] == rs[0] && rs[..i][1..] == rs[1..][..i - 1];
  }

  lemma {:induction false} LossesZero(t: Table<TraceId, nat>, hash: TraceId -> uint32, free: seq<uint32>,
                                      rs: seq<Record>)
    requires Inv(t, hash)
    ensures Losses(t, hash, free, rs) == 0 <==> forall i :: 0 <= i < |rs| ==> !LosesAt(t, hash, free, rs, i)
    decreases |rs|
  {
    if rs != [] {
      LossesZero(TableAfter(t, hash, free, rs[0]), hash, PoolAfter(t, free, rs[0]), rs[1..]);
      LosesSplit(t, hash, free, rs, TableAfter(t, hash, free, rs[0]), PoolAfter(t, free, rs[0]), rs[1..]);
    }
  }

  lemma LosesSplit(t: Table<TraceId, nat>, hash: TraceId -> uint32, free: seq<uint32>, rs: seq<Record>,
                   t': Table<TraceId, nat>, free': seq<uint32>, rest: seq<Record>)
    requires Inv(t, hash) && rs != [] && rest == rs[1..]
    requires t' == TableAfter(t, hash, free, rs[0]) && free' == PoolAfter(t, free, rs[0])
    ensures (forall i :: 0 <= i < |rs| ==> !LosesAt(t, hash, free, rs, i))
       <==> !Loses(t, hash, free, rs[0]) && forall i :: 0 <= i < |rest| ==> !LosesAt(t', hash, free', rest, i)
  {
    LosesNow(t, hash, free, rs);
    forall i | 0 <= i < |rest| ensures LosesAt(t, hash, free, rs, i + 1) <==> LosesAt(t', hash, free', rest, i) {
      LosesLater(t, hash, free, rs, i + 1);
    }
    if !Loses(t, hash, free, rs[0]) && forall i :: 0 <= i < |rest| ==> !LosesAt(t', hash, free', rest, i) {
      forall i | 0 <= i < |rs| ensures !LosesAt(t, hash, free, rs, i) {
        if i > 0 { assert !LosesAt(t', hash, free', rest, i - 1); }
      }
    }
  }

  lemma LosesNow(t: Table<TraceId, nat>, hash: TraceId -> uint32, free: seq<uint32>, rs: seq<Record>)
    requires Inv(t, hash) && rs != []
    ensures LosesAt(t, hash, free, rs, 0) <==> Loses(t, hash, free, rs[0])
  {
    assert rs[..0] == [];
  }

  /** Pool and index hold all the slots they held before exactly if no new key was
      refused for want of a place in the hash table. */
  lemma AllSlotsHeldIff(t: Table<TraceId, nat>, hash: TraceId -> uint32, free: seq<uint32>, rs: seq<Record>)
    requires Inv(t, hash) && Enough(t, free)
    ensures |PoolOf(t, hash, free, rs)| + |Abs(TableOf(t, hash, free, rs))| == |free| + |Abs(t)|
       <==> forall i :: 0 <= i < |rs| ==> !LosesAt(t, hash, free, rs, i)
  {
    SlotsConserved(t, hash, free, rs);
    LossesZero(t, hash, free, rs);
  }

  // ---- the table -----------------------------------------------------------------------------------

  class TraceTable {
    const tbl: CuckooHash<TraceId, nat>
    const pool: RingBuffer
    const traces: array<TraceData>
    var macLoc: nat
    ghost var free: seq<uint32>
    ghost var accepted: seq<Record>
    ghost var index: map<TraceId, Stored<nat>>

    /** The table of __init_trace_tbl before its pool is filled. */
    constructor (hash: TraceId -> uint32)
      ensures Separate() && Sizes() && Indexed() && index == map[]
      ensures Queues(pool, free) && free == [] && accepted == [] && macLoc == 0
      ensures fresh(tbl.Repr()) && fresh(pool) && fresh(pool.data) && fresh(traces)
    {
      var t := NewIndex(hash);
      var p, ts := NewPool();
      tbl, pool, traces := t, p, ts;
      macLoc := 0;
      free, accepted, index := [], [], map[];
    }

    static method NewIndex(hash: TraceId -> uint32) returns (t: CuckooHash<TraceId, nat>)
      ensures t.Separate() && t.Model() == Some(map[]) && t.entries == TRACE_MAX && fresh(t.Repr())
    {
      DeclaredMaxFits(16, TRACE_MAX);
      var ret, h := CuckooHash<TraceId, nat>.Create(16, TRACE_MAX, hash);
      t := h;
    }

    /** The pool with nothing in it yet, and the trace slots. */
    static method NewPool() returns (p: RingBuffer, ts: array<TraceData>)
      ensures Queues(p, []) && p.size == 4 * TRACE_MAX && ts.Length == TRACE_MAX
      ensures fresh(p) && fresh(p.data) && fresh(ts) && ts as object !in {p as object, p.data}
    {
      PoolSize();
      p := new RingBuffer(4 * TRACE_MAX);
      ts := new TraceData[TRACE_MAX](_ => TraceData(0, ZeroCell()));
    }

    /** __init_trace_tbl: an empty table and a pool of the indices 0 to 16382. */
    static method Init(hash: TraceId -> uint32) returns (t: TraceTable)
      ensures t.Valid() && fresh(t) && fresh(t.Repr()) && t.accepted == [] && t.macLoc == 0
      ensures t.free == seq(16383, i => i)
    {
      t := new TraceTable(hash);
      t.FillPool();
    }

    ghost function Repr(): set<object> {
      tbl.Repr() + {pool, pool.data, traces}
    }

    ghost predicate Separate() {
      && tbl.Repr() !! {this, pool, pool.data, traces}
      && traces as object !in {pool as object, pool.data} && this as object !in {pool as object, pool.data}
    }

    ghost predicate Sizes() {
      traces.Length == TRACE_MAX && pool.size == 4 * TRACE_MAX && tbl.entries == TRACE_MAX
    }

    /** The hash table is sound and maps each key to its trace slot as `index` says. */
    ghost predicate Indexed()
      reads this`index, tbl.Repr()
    {
      tbl.Model() == Some(index)
    }

    /** The pool and the slots agree with the index and the records accepted. */
    ghost predicate Pooled()
      reads this, pool, pool.data, traces
    {
      Queues(pool, free) && PoolOk(index, free) && Readable()
    }

    /** The slots of the indexed keys hold what the records accepted amount to. */
    ghost predicate Readable()
      reads this, traces
    {
      && macLoc < LOC_MAX && Located(accepted) && traces.Length == TRACE_MAX
      && SlotsHold(index, traces[..], Replay(accepted))
    }

    ghost predicate Valid()
      reads this, pool, pool.data, traces, tbl.Repr()
    {
      Separate() && Sizes() && Indexed() && Pooled()
    }

    /** All 16384 indices are put; the ring, keeping one byte spare, has no room for
        the last. */
    method FillPool()
      requires Separate() && Sizes() && Indexed() && index == map[]
      requires Queues(pool, free) && free == [] && accepted == [] && macLoc == 0
      modifies this`free, pool, pool.data
      ensures Valid() && free == seq(TRACE_MAX - 1, i => i)
      ensures accepted == [] && macLoc == 0
    {
      var i: uint32 := 0;
      while i < TRACE_MAX
        invariant 0 <= i <= TRACE_MAX && Queues(pool, free)
        invariant free == seq(if i < TRACE_MAX then i else TRACE_MAX - 1, j => j)
        invariant Indexed()
      {
        PutIndex(i);
        i := i + 1;
      }
    }

    method PutIndex(i: uint32)
      requires Separate() && Sizes() && Indexed() && Queues(pool, free) && i < TRACE_MAX
      requires free == seq(i, j => j)
      modifies this`free, pool, pool.data
      ensures Indexed() && Queues(pool, free)
      ensures free == seq(if i < TRACE_MAX - 1 then i + 1 else i, j => j)
    {
      var n := PutId(pool, i, free);
      if n == 4 { free := free + [i]; }
    }

    /** The record of a key that is present goes to the slot of the key. */
    method Update(r: Record, i: nat)
      requires Pooled() && r.location < LOC_MAX && KeyOf(r) in index && i == index[KeyOf(r)].data
      requires traces as object != pool && traces as object != pool.data
      requires this as object != pool && this as object != pool.data
      modifies this`accepted, traces
      ensures Pooled() && accepted == old(accepted) + [r]
    {
      UpdateSlots(index, traces[..], Replay(accepted), free, r);
      assert traces[i] == traces[..][i];
      traces[i] := TraceData(traces[i].idx, Put(traces[i].cell, r));
      Accept(accepted, r);
      accepted := accepted + [r];
    }

    /** A record of a new key is put in a slot from the pool, cleared before. */
    method Fill(r: Record, i: uint32)
      requires Pooled() && r.location < LOC_MAX && i < TRACE_MAX && forall k :: k in index ==> index[k].data != i
      requires traces as object != pool && traces as object != pool.data
      modifies traces
      ensures Pooled() && traces[i] == TraceData(i, Put(ZeroCell(), r))
    {
      InsertSlot(index, traces[..], Replay(accepted), free, r, i);
      traces[i] := TraceData(i, Put(ZeroCell(), r));
    }

    /** The slot of a new key is indexed.  If the hash table refuses the key, nothing
        but the pool has changed and the slot is lost. */
    method Link(r: Record, i: uint32) returns (ret: int)
      requires Valid() && r.location < LOC_MAX && KeyOf(r) !in index
      requires i < TRACE_MAX - 1 && i !in free && forall k :: k in index ==> index[k].data != i
      requires traces[i] == TraceData(i, Put(ZeroCell(), r))
      modifies this`accepted, this`index, tbl.Repr()
      ensures Valid()
      ensures if ret == 0 then accepted == old(accepted) + [r]
              else ret == -28 && accepted == old(accepted) && index == old(index)
      ensures Linked(old(tbl.Table()), tbl.Table(), tbl.hash, KeyOf(r), i, ret)
    {
      IndexSmall(index, free);
      ret := AddToTable(KeyOf(r), i);
      StillQueued();
      if ret == 0 { NoteLinked(r, i, old(index)); }
    }

    ghost method NoteLinked(r: Record, i: uint32, before: map<TraceId, Stored<nat>>)
      requires Separate() && Sizes() && Indexed()
      requires Queues(pool, free) && macLoc < LOC_MAX && Located(accepted)
      requires traces.Length == TRACE_MAX && r.location < LOC_MAX
      requires PoolOk(before, free) && SlotsHold(before, traces[..], Replay(accepted)) && KeyOf(r) !in before
      requires i < TRACE_MAX - 1 && i !in free && forall k :: k in before ==> before[k].data != i
      requires traces[i] == TraceData(i, Put(ZeroCell(), r))
      requires KeyOf(r) in index && index == before[KeyOf(r) := Stored(index[KeyOf(r)].pos, i)]
      modifies this`accepted
      ensures Valid() && accepted == old(accepted) + [r] && tbl.Table() == old(tbl.Table())
    {
      ghost var t := tbl.Table();
      NoteAccepted(r, i, before);
      StillTable(t);
    }

    /** With a filled slot indexed, its record counts as accepted. */
    ghost method NoteAccepted(r: Record, i: uint32, before: map<TraceId, Stored<nat>>)
      requires Queues(pool, free) && macLoc < LOC_MAX && Located(accepted)
      requires traces.Length == TRACE_MAX && r.location < LOC_MAX
      requires PoolOk(before, free) && SlotsHold(before, traces[..], Replay(accepted)) && KeyOf(r) !in before
      requires i < TRACE_MAX - 1 && i !in free && forall k :: k in before ==> before[k].data != i
      requires traces[i] == TraceData(i, Put(ZeroCell(), r))
      requires KeyOf(r) in index && index == before[KeyOf(r) := Stored(index[KeyOf(r)].pos, i)]
      requires this as object !in {pool as object, pool.data}
      modifies this`accepted
      ensures Pooled() && accepted == old(accepted) + [r]
    {
      IndexSlot(before, traces[..], Replay(accepted), free, r, i, index);
      Accept(accepted, r);
      accepted := accepted + [r];
    }

    method AddToTable(k: TraceId, i: nat) returns (ret: int)
      requires Separate() && Sizes() && Indexed() && k !in index && |index| < TRACE_MAX
      modifies this`index, tbl.Repr()
      ensures Indexed() && Linked(old(tbl.Table()), tbl.Table(), tbl.hash, k, i, ret)
      ensures if ret == 0 then k in index && index == old(index)[k := Stored(index[k].pos, i)]
              else ret == -28 && index == old(index)
    {
      ghost var m;
      ret, m := AddAbsent(k, i);
      label Added:
      ghost var t := tbl.Table();
      index := m;
      StillModel@Added(t);
    }

    method AddAbsent(k: TraceId, i: nat) returns (ret: int, ghost m: map<TraceId, Stored<nat>>)
      requires Sizes() && Indexed() && k !in index && |index| < TRACE_MAX
      modifies tbl.Repr()
      ensures tbl.Model() == Some(m) && Linked(old(tbl.Table()), tbl.Table(), tbl.hash, k, i, ret)
      ensures if ret == 0 then k in m && m == old(index)[k := Stored(m[k].pos, i)]
              else ret == -28 && m == old(index)
    {
      ghost var was := index;
      RefusedWithoutPlace(tbl.Table(), tbl.hash, k, i);
      ret := tbl.AddKeyData(k, i);
      m := tbl.Contents();
      if ret == 0 { AddedNew(was, m, tbl.entries, k, i); }
    }

    twostate lemma StillModel(t: Table<TraceId, nat>)
      requires t == old(tbl.Table())
      requires unchanged(tbl, tbl.slots, tbl.flag, tbl.keys, tbl.datas, tbl.freeSlots, tbl.freeSlots.data)
      ensures tbl.Model() == old(tbl.Model()) && tbl.Table() == t
    {}

    method FindTrace(k: TraceId) returns (ret: int, data: Option<nat>)
      requires Indexed()
      ensures if k in index then ret >= 0 && data == Some(index[k].data) else ret < 0
    {
      ret, data := tbl.LookupWithHash(k, tbl.hash(k));
      PositionsBounded(tbl.Table(), tbl.hash);
    }

    method TakeIndex() returns (n: uint32, idx: uint32)
      requires Pooled() && traces as object != pool && this as object != pool && this as object != pool.data
      modifies this`free, pool
      ensures Pooled()
      ensures if old(free) == [] then n == 0 && free == []
              else n == 4 && idx == old(free)[0] && free == old(free)[1..]
                   && idx < TRACE_MAX - 1 && idx !in free && forall k :: k in index ==> index[k].data != idx
    {
      n, idx := GetId(pool, free);
      if n == 4 {
        TakeFree(index, free);
        free := free[1..];
      }
    }

    /** A record of a new key: the pool may be exhausted, or the index refuse. */
    method AddNew(r: Record) returns (ret: int)
      requires Valid() && r.location < LOC_MAX && KeyOf(r) !in index
      modifies this`free, this`accepted, this`index, pool, traces, tbl.Repr()
      ensures Valid()
      ensures if ret == 0 then accepted == old(accepted) + [r]
              else accepted == old(accepted) && ret == if old(free) == [] then -2 else -28
      ensures free == PoolAfter(old(tbl.Table()), old(free), r)
      ensures Entered(old(tbl.Table()), tbl.Table(), tbl.hash, old(free), r, ret)
    {
      ghost var t, was := tbl.Table(), free;
      var n, idx := TakeFilled(r);
      ret := -ERR_OUT_OF_RANGE;
      if n == 4 { ret := LinkNew(r, idx, was, t); }
    }

    method LinkNew(r: Record, i: uint32, ghost was: seq<uint32>, ghost t: Table<TraceId, nat>) returns (ret: int)
      requires t == tbl.Table()
      requires Valid() && r.location < LOC_MAX && KeyOf(r) !in index && was != [] && i == was[0]
      requires i < TRACE_MAX - 1 && i !in free && forall k :: k in index ==> index[k].data != i
      requires traces[i] == TraceData(i, Put(ZeroCell(), r))
      modifies this`accepted, this`index, tbl.Repr()
      ensures Valid()
      ensures if ret == 0 then accepted == old(accepted) + [r]
              else ret == -28 && accepted == old(accepted)
      ensures Entered(t, tbl.Table(), tbl.hash, was, r, ret)
    {
      ret := Link(r, i);
      LinkedEntered(t, tbl.Table(), tbl.hash, was, r, ret);
    }

    method TakeFilled(r: Record) returns (n: uint32, idx: uint32)
      requires Valid() && r.location < LOC_MAX && KeyOf(r) !in index
      modifies this`free, pool, traces
      ensures Valid() && tbl.Table() == old(tbl.Table())
      ensures if old(free) == []
              then n == 0 && free == [] && Entered(tbl.Table(), tbl.Table(), tbl.hash, [], r, -ERR_OUT_OF_RANGE)
              else n == 4 && idx == old(free)[0] && free == old(free)[1..]
                   && idx < TRACE_MAX - 1 && idx !in free && (forall k :: k in index ==> index[k].data != idx)
                   && traces[idx] == TraceData(idx, Put(ZeroCell(), r))
    {
      ghost var t := tbl.Table();
      n, idx := TakeIndex();
      if n == 4 { Fill(r, idx); }
      StillTable(t);
    }

    /** Changes to the hash table leave the pool and the slots as they are. */
    twostate lemma StillQueued()
      requires old(Queues(pool, free)) && unchanged(`free) && unchanged(pool, pool.data, traces)
      ensures Queues(pool, free) && traces[..] == old(traces[..])
    {}

    twostate lemma StillTable(t: Table<TraceId, nat>)
      requires old(Indexed()) && unchanged(`index) && t == old(tbl.Table())
      requires unchanged(tbl, tbl.slots, tbl.flag, tbl.keys, tbl.datas, tbl.freeSlots, tbl.freeSlots.data)
      ensures Indexed() && t == tbl.Table()
    {}

    method UpdateFound(r: Record, i: nat)
      requires Valid() && r.location < LOC_MAX && KeyOf(r) in index && i == index[KeyOf(r)].data
      modifies this`accepted, traces
      ensures Valid() && accepted == old(accepted) + [r]
      ensures free == PoolAfter(old(tbl.Table()), free, r)
      ensures Entered(old(tbl.Table()), tbl.Table(), tbl.hash, free, r, 0)
    {
      Update(r, i);
      StillTable(old(tbl.Table()));
    }

    /** __add_record. */
    method AddRecord(r: Record) returns (ret: int)
      requires Valid() && r.location < LOC_MAX
      modifies this`free, this`accepted, this`index, pool, traces, tbl.Repr()
      ensures Valid()
      ensures if ret == 0 then accepted == old(accepted) + [r]
              else accepted == old(accepted) && ret == if old(free) == [] then -2 else -28
      ensures free == PoolAfter(old(tbl.Table()), old(free), r)
      ensures Entered(old(tbl.Table()), tbl.Table(), tbl.hash, old(free), r, ret)
    {
      var data;
      ret, data := FindTrace(KeyOf(r));
      if ret < 0 {
        ret := AddNew(r);
      } else {
        UpdateFound(r, data.value);
        ret := 0;
      }
    }

    method SeeLocation(r: Record)
      requires Valid() && r.location < LOC_MAX
      modifies this`macLoc
      ensures Valid() && macLoc == if r.location > old(macLoc) then r.location else old(macLoc)
      ensures tbl.Table() == old(tbl.Table())
    {
      if r.location > macLoc {
        macLoc := r.location;
        StillTable(old(tbl.Table()));
      }
    }

    /** One round of __read_record.  A record that is refused still counts for the
        number of locations. */
    method ReadRecord(r: Record) returns (ret: int)
      requires Valid() && r.location < LOC_MAX
      modifies this, pool, traces, tbl.Repr()
      ensures Valid()
      ensures macLoc == if r.location > old(macLoc) then r.location else old(macLoc)
      ensures accepted == if ret == 0 then old(accepted) + [r] else old(accepted)
      ensures Entered(old(tbl.Table()), tbl.Table(), tbl.hash, old(free), r, ret)
      ensures free == PoolAfter(old(tbl.Table()), old(free), r)
    {
      ghost var t, was := tbl.Table(), free;
      SeeLocation(r);
      ret := AddRecord(r);
      assert Entered(t, tbl.Table(), tbl.hash, was, r, ret);
    }

    /** __read_record: the fold over the records of a file. */
    method ReadRecords(records: seq<Record>)
      requires Valid() && Located(records)
      modifies this, pool, traces, tbl.Repr()
      ensures Valid()
      ensures macLoc == MaxLocation(old(macLoc), records)
      ensures accepted == old(accepted) + AcceptedOf(old(tbl.Table()), tbl.hash, old(free), records)
      ensures tbl.Table() == TableOf(old(tbl.Table()), tbl.hash, old(free), records)
      ensures free == PoolOf(old(tbl.Table()), tbl.hash, old(free), records)
    {
      ghost var all, loc := accepted + AcceptedOf(tbl.Table(), tbl.hash, free, records), macLoc;
      ghost var last := TableOf(tbl.Table(), tbl.hash, free, records);
      ghost var left := PoolOf(tbl.Table(), tbl.hash, free, records);
      var n := 0;
      assert records[n..] == records;
      while n < |records|
        invariant 0 <= n <= |records| && Valid()
        invariant macLoc == MaxLocation(loc, records[..n])
        invariant accepted + AcceptedOf(tbl.Table(), tbl.hash, free, records[n..]) == all
        invariant TableOf(tbl.Table(), tbl.hash, free, records[n..]) == last
        invariant PoolOf(tbl.Table(), tbl.hash, free, records[n..]) == left
      {
        ghost var t, was, acc := tbl.Table(), free, accepted;
        var ret := ReadRecord(records[n]);
        NextRecord(loc, records, n);
        assert records[n..][0] == records[n] && records[n..][1..] == records[n + 1..];
        AcceptNext(t, tbl.hash, was, records[n..], acc, accepted);
        n := n + 1;
      }
      assert records[..n] == records;
    }

    /** The counts of SlotsConserved apply to the table and pool at hand. */
    lemma SlotsHeld()
      requires Valid()
      ensures Inv(tbl.Table(), tbl.hash) && Enough(tbl.Table(), free) && Abs(tbl.Table()) == index
    {
      IndexSmall(index, free);
    }

    // ---- dumping ---------------------------------------------------------------------------------

    /** The columns of one row of __dump_all_traces. */
    method DumpRow(k: TraceId, i: nat) returns (row: seq<(int, nat)>)
      requires Readable() && k in index && i == index[k].data
      ensures row == Columns(Replay(accepted)[k], macLoc + 1)
    {
      var td := traces[i];
      assert td == traces[..][i];
      row := [];
      var j := 0;
      while j <= macLoc
        invariant 0 <= j <= macLoc + 1 && row == Columns(td.cell, j)
      {
        row := row + [(td.cell.tids[j], TimeNs(td.cell.timestamps[j]))];
        j := j + 1;
      }
    }

    /** One call of cuckoohash_iterate: the first of the items left, if any. */
    method NextTrace(iter: uint32, ghost t: Table<TraceId, nat>)
      returns (ret: int, item: Option<(TraceId, nat)>, iter': uint32)
      requires Indexed() && t == tbl.Table()
      ensures var rest := ItemsFrom(t, iter);
              if rest == [] then ret < 0
              else ret >= 0 && item == Some(rest[0]) && ItemsFrom(t, iter') == rest[1..]
    {
      ret, item, iter' := tbl.Iterate(iter);
      if iter < |t.slots| && NextOccupied(t.slots, iter) < |t.slots| { ItemsStep(t, iter); }
    }

    /** The row of one item is appended. */
    method AddRow(rows: seq<Row>, item: (TraceId, nat), ghost items: seq<(TraceId, nat)>, ghost n: nat,
                  ghost cells: map<TraceId, Cell>, ghost cols: nat)
      returns (rows': seq<Row>)
      requires Readable() && cells == Replay(accepted) && cols == macLoc + 1
      requires ItemsIn(items, index) && n < |items| && item == items[n] && rows == Rows(items[..n], cells, cols)
      ensures rows' == Rows(items[..n + 1], cells, cols)
    {
      var columns := DumpRow(item.0, item.1);
      rows' := rows + [Row(item.0, columns)];
      RowsAppend(items, n, cells, cols);
    }

    /** One round of the dump: the row of item n, and the next item. */
    method DumpOne(rows: seq<Row>, item: (TraceId, nat), iter: uint32,
                   ghost items: seq<(TraceId, nat)>, ghost n: nat, ghost t: Table<TraceId, nat>,
                   ghost cells: map<TraceId, Cell>, ghost cols: nat)
      returns (rows': seq<Row>, ret: int, item': Option<(TraceId, nat)>, iter': uint32)
      requires Indexed() && Readable() && t == tbl.Table() && cells == Replay(accepted) && cols == macLoc + 1
      requires ItemsIn(items, index) && n < |items| && item == items[n]
      requires rows == Rows(items[..n], cells, cols) && ItemsFrom(t, iter) == items[n..][1..]
      ensures rows' == Rows(items[..n + 1], cells, cols)
      ensures AtItem(ret, item', iter', items, n + 1, t)
    {
      Advancing(items, n);
      ret, item', iter' := NextTrace(iter, t);
      rows' := AddRow(rows, item, items, n, cells, cols);
    }

    /** The loop of __dump_all_traces over all items of the walk. */
    method DumpWalk(ghost t: Table<TraceId, nat>, ghost items: seq<(TraceId, nat)>, ghost cells: map<TraceId,
                    Cell>, ghost cols: nat)
      returns (rows: seq<Row>, nbTrace: nat)
      requires Indexed() && Readable() && t == tbl.Table() && cells == Replay(accepted) && cols == macLoc + 1
      requires items == ItemsFrom(t, 0) && ItemsIn(items, index)
      ensures nbTrace == |items| && rows == Rows(items, cells, cols)
    {
      RowsNone(items, cells, cols);
      rows, nbTrace := [], 0;
      var ret, item, iter := NextTrace(0, t);
      while ret >= 0
        invariant AtItem(ret, item, iter, items, nbTrace, t)
        invariant rows == Rows(items[..nbTrace], cells, cols)
        decreases |items| - nbTrace
      {
        StillTable(t);
        rows, ret, item, iter := DumpOne(rows, item.value, iter, items, nbTrace, t, cells, cols);
        nbTrace := nbTrace + 1;
      }
      AllSeen(items, nbTrace);
    }

    /** __dump_all_traces: one row for every key in the order of the walk, holding for
        each location the thread and time of the last record accepted for it. */
    method DumpAllTraces() returns (rows: seq<Row>, nbTrace: nat)
      requires Valid()
      ensures Shows(rows, accepted, macLoc) && nbTrace == |rows|
      ensures InWalkOrder(rows, tbl.Table())
    {
      rows, nbTrace := DumpRows(tbl.Table(), accepted, macLoc);
    }

    method DumpRows(ghost t: Table<TraceId, nat>, ghost rs: seq<Record>, ghost n: nat)
      returns (rows: seq<Row>, nbTrace: nat)
      requires Valid() && t == tbl.Table() && rs == accepted && n == macLoc
      ensures Shows(rows, rs, n) && nbTrace == |rows| && InWalkOrder(rows, t)
    {
      ghost var hash := tbl.hash;
      ghost var cells, cols := Replay(rs), n + 1;
      IndexIs(t, cells);
      ItemsAreIndex(t, hash, ItemsFrom(t, 0), index);
      rows, nbTrace := DumpWalk(t, ItemsFrom(t, 0), cells, cols);
      DumpIs(t, hash, rs, cells, n, rows);
      RowsInOrder(t, hash, cells, cols, rows);
    }

    lemma IndexIs(t: Table<TraceId, nat>, cells: map<TraceId, Cell>)
      requires Valid() && t == tbl.Table() && cells == Replay(accepted)
      ensures Inv(t, tbl.hash) && Abs(t).Keys == cells.Keys && macLoc + 1 <= LOC_MAX
      ensures forall k :: k in cells ==> CellSized(cells[k])
    {}
  }

  lemma DumpIs(t: Table<TraceId, nat>, hash: TraceId -> uint32, rs: seq<Record>, cells: map<TraceId, Cell>,
               n: nat, rows: seq<Row>)
    requires Inv(t, hash) && Located(rs) && cells == Replay(rs) && Abs(t).Keys == cells.Keys
    requires n < LOC_MAX && rows == Rows(ItemsFrom(t, 0), cells, n + 1)
    ensures Shows(rows, rs, n)
  {
    var items := ItemsFrom(t, 0);
    ItemsAreIndex(t, hash, items, Abs(t));
    ItemsShow(items, rs, cells, Abs(t), n, rows);
  }

  lemma ItemsShow(items: seq<(TraceId, nat)>, rs: seq<Record>, cells: map<TraceId, Cell>,
                  index: map<TraceId, Stored<nat>>, n: nat, rows: seq<Row>)
    requires Located(rs) && cells == Replay(rs) && n < LOC_MAX
    requires ItemsIn(items, index) && index.Keys == cells.Keys && rows == Rows(items, cells, n + 1)
    requires forall i, j :: 0 <= i < j < |items| ==> items[i].0 != items[j].0
    requires forall k :: k in index ==> exists i :: 0 <= i < |items| && items[i].0 == k
    ensures Shows(rows, rs, n)
  {
    RowsAre(items, cells, index, n + 1, rows);
    DumpShows(rows, rs, cells, n);
  }

  lemma RowsInOrder(t: Table<TraceId, nat>, hash: TraceId -> uint32, cells: map<TraceId, Cell>, n: nat,
                    rows: seq<Row>)
    requires Inv(t, hash) && rows == Rows(ItemsFrom(t, 0), cells, n)
    ensures InWalkOrder(rows, t)
  {
    forall i | 0 <= i < |rows| ensures IsKeyAt(rows[i].id, t, Walk(t.slots, 0)[i]) {
      WalkInMap(t, hash, i);
    }
  }

  // ---- what the dump shows ---------------------------------------------------------------------

  /** Row i is for the key of the occupied slot i. */
  ghost predicate InWalkOrder(rows: seq<Row>, t: Table<TraceId, nat>) {
    |rows| == |Walk(t.slots, 0)| && forall i :: 0 <= i < |rows| ==> IsKeyAt(rows[i].id, t, Walk(t.slots, 0)[i])
  }

  predicate IsKeyAt(k: TraceId, t: Table<TraceId, nat>, p: nat) {
    p < |t.slots| && t.slots[p].keyIdx < |t.keys| && k == t.keys[t.slots[p].keyIdx]
  }

  /** A number of 64 bits is a time: that of seconds and nanoseconds, as far as it fits,
      and 0 for any other stamp. */
  predicate ShowsTime(ns: nat, ts: Timestamp) {
    && ns < 0x1_0000_0000_0000_0000
    && (ts.tsType == 1 ==> (ts.first * 1000000000 + ts.second - ns) % 0x1_0000_0000_0000_0000 == 0)
    && (ts.tsType != 1 ==> ns == 0)
  }

  /** A column is for record i, or is empty. */
  predicate ShowsRecord(column: (int, nat), rs: seq<Record>, i: int)
    requires i < |rs|
  {
    if i < 0 then column == (0, 0) else column.0 == rs[i].tid && ShowsTime(column.1, rs[i].timestamp)
  }

  predicate RowShows(row: Row, rs: seq<Record>, macLoc: nat) {
    && |row.columns| == macLoc + 1
    && forall loc :: 0 <= loc <= macLoc ==> ShowsRecord(row.columns[loc], rs, LastMatch(rs, row.id, loc))
  }

  /** One row for every key among the records, and for no other. */
  ghost predicate Shows(rows: seq<Row>, rs: seq<Record>, macLoc: nat) {
    && (forall i :: 0 <= i < |rows| ==> RowShows(rows[i], rs, macLoc))
    && (forall i, j :: 0 <= i < j < |rows| ==> rows[i].id != rows[j].id)
    && (forall i :: 0 <= i < |rows| ==> SomeHasKey(rs, rows[i].id))
    && (forall i :: 0 <= i < |rs| ==> HasRowFor(rows, rs[i]))
  }

  predicate HasRowFor(rows: seq<Row>, r: Record) {
    exists i :: 0 <= i < |rows| && HasKey(r, rows[i].id)
  }

  predicate SomeHasKey(rs: seq<Record>, k: TraceId) {
    exists i :: 0 <= i < |rs| && HasKey(rs[i], k)
  }

  lemma TimeShows(ts: Timestamp)
    ensures ShowsTime(TimeNs(ts), ts)
  {
    var x := ts.first * 1000000000 + ts.second;
    assert x - x % 0x1_0000_0000_0000_0000 == x / 0x1_0000_0000_0000_0000 * 0x1_0000_0000_0000_0000;
  }

  lemma ColumnShows(rs: seq<Record>, k: TraceId, n: nat, loc: nat)
    requires Located(rs) && loc < n <= LOC_MAX && k in Replay(rs)
    ensures ShowsRecord(Columns(Replay(rs)[k], n)[loc], rs, LastMatch(rs, k, loc))
  {
    LastRecordWins(rs, k, loc);
    TimeShows(Replay(rs)[k].timestamps[loc]);
  }

  lemma DumpShows(rows: seq<Row>, rs: seq<Record>, cells: map<TraceId, Cell>, macLoc: nat)
    requires Located(rs) && macLoc < LOC_MAX && cells == Replay(rs) && IsDump(rows, cells, macLoc + 1)
    ensures Shows(rows, rs, macLoc)
  {
    forall i | 0 <= i < |rows| ensures RowShows(rows[i], rs, macLoc) && SomeHasKey(rs, rows[i].id) {
      Present(rs, rows[i].id);
      forall loc | 0 <= loc <= macLoc
        ensures ShowsRecord(rows[i].columns[loc], rs, LastMatch(rs, rows[i].id, loc))
      {
        ColumnShows(rs, rows[i].id, macLoc + 1, loc);
      }
    }
    forall i | 0 <= i < |rs| ensures HasRowFor(rows, rs[i]) {
      assert HasKey(rs[i], KeyOf(rs[i]));
      Present(rs, KeyOf(rs[i]));
    }
  }

  /** The last call of iterate returned item n, or nothing after the last item, and
      goes on behind it. */
  ghost predicate AtItem(ret: int, item: Option<(TraceId, nat)>, iter: nat, items: seq<(TraceId, nat)>, n: nat,
                         t: Table<TraceId, nat>) {
    n <= |items| &&
    if items[n..] == [] then ret < 0
    else ret >= 0 && item == Some(items[n..][0]) && ItemsFrom(t, iter) == items[n..][1..]
  }

  lemma Advancing<T>(s: seq<T>, n: nat)
    requires n < |s|
    ensures s[n..][1..] == s[n + 1..]
  {}

  lemma AllSeen<T>(s: seq<T>, n: nat)
    requires n <= |s| && s[n..] == []
    ensures s[..n] == s
  {}

  /** One row for every key of cells, with its first n columns. */
  ghost predicate IsDump(rows: seq<Row>, cells: map<TraceId, Cell>, n: nat) {
    && (forall i :: 0 <= i < |rows| ==> RowIn(rows[i], cells, n))
    && (forall i, j :: 0 <= i < j < |rows| ==> rows[i].id != rows[j].id)
    && (forall k :: k in cells ==> HasRow(rows, k))
  }

  ghost predicate HasRow(rows: seq<Row>, k: TraceId) {
    exists i :: 0 <= i < |rows| && rows[i].id == k
  }

  /** What the walk returns at slot p: the key and its trace slot. */
  ghost function Pick(t: Table<TraceId, nat>, p: nat): (TraceId, nat) {
    if p < |t.slots| && t.slots[p].keyIdx < |t.keys| && |t.keys| == |t.datas|
    then (t.keys[t.slots[p].keyIdx], t.datas[t.slots[p].keyIdx])
    else (TraceId(0, 0), 0)
  }

  ghost function Picks(t: Table<TraceId, nat>, w: seq<nat>): seq<(TraceId, nat)> {
    seq(|w|, i requires 0 <= i < |w| => Pick(t, w[i]))
  }

  /** What a walk still returns from slot `next` on. */
  ghost function ItemsFrom(t: Table<TraceId, nat>, next: nat): seq<(TraceId, nat)> {
    Picks(t, Walk(t.slots, next))
  }

  lemma ItemsStep(t: Table<TraceId, nat>, next: nat)
    requires next < |t.slots| && NextOccupied(t.slots, next) < |t.slots|
    ensures var p := NextOccupied(t.slots, next);
            ItemsFrom(t, next) == [Pick(t, p)] + ItemsFrom(t, p + 1)
  {}

  /** The items are keys of the index with their trace slots. */
  ghost predicate ItemsIn(items: seq<(TraceId, nat)>, index: map<TraceId, Stored<nat>>) {
    forall i :: 0 <= i < |items| ==> items[i].0 in index && items[i].1 == index[items[i].0].data
  }

  lemma ItemsAreIndex(t: Table<TraceId, nat>, hash: TraceId -> uint32, items: seq<(TraceId, nat)>,
                      index: map<TraceId, Stored<nat>>)
    requires Inv(t, hash) && items == ItemsFrom(t, 0) && index == Abs(t)
    ensures ItemsIn(items, index)
    ensures forall i, j :: 0 <= i < j < |items| ==> items[i].0 != items[j].0
    ensures forall k :: k in index ==> exists i :: 0 <= i < |items| && items[i].0 == k
  {
    forall i | 0 <= i < |items| ensures items[i].0 in index && items[i].1 == index[items[i].0].data {
      WalkInMap(t, hash, i);
    }
    forall i, j | 0 <= i < j < |items| ensures items[i].0 != items[j].0 { ItemsDiffer(t, hash, i, j); }
    forall k | k in index ensures exists i :: 0 <= i < |items| && items[i].0 == k {
      var i := ItemOf(t, hash, k);
      assert items[i].0 == k;
    }
  }

  lemma ItemsDiffer(t: Table<TraceId, nat>, hash: TraceId -> uint32, i: nat, j: nat)
    requires Inv(t, hash) && i < j < |ItemsFrom(t, 0)|
    ensures ItemsFrom(t, 0)[i].0 != ItemsFrom(t, 0)[j].0
  {
    WalkInMap(t, hash, i);
    WalkInMap(t, hash, j);
    WalkDistinct(t, hash, i, j);
  }

  lemma ItemOf(t: Table<TraceId, nat>, hash: TraceId -> uint32, k: TraceId) returns (i: nat)
    requires Inv(t, hash) && k in Abs(t)
    ensures i < |ItemsFrom(t, 0)| && ItemsFrom(t, 0)[i].0 == k
  {
    i := MapInWalk(t, hash, k);
    WalkInMap(t, hash, i);
  }

  function Rows(items: seq<(TraceId, nat)>, cells: map<TraceId, Cell>, n: nat): seq<Row> {
    seq(|items|, i requires 0 <= i < |items| =>
      var k := items[i].0;
      Row(k, if k in cells && CellSized(cells[k]) && n <= LOC_MAX then Columns(cells[k], n) else []))
  }

  lemma RowsNone(items: seq<(TraceId, nat)>, cells: map<TraceId, Cell>, n: nat)
    ensures Rows(items[..0], cells, n) == [] && items[0..] == items
  {}

  lemma RowsAppend(items: seq<(TraceId, nat)>, i: nat, cells: map<TraceId, Cell>, n: nat)
    requires i < |items| && items[i].0 in cells && CellSized(cells[items[i].0]) && n <= LOC_MAX
    ensures Rows(items[..i + 1], cells, n)
         == Rows(items[..i], cells, n) + [Row(items[i].0, Columns(cells[items[i].0], n))]
  {}

  lemma RowsAre(items: seq<(TraceId, nat)>, cells: map<TraceId, Cell>, index: map<TraceId, Stored<nat>>,
                n: nat, rows: seq<Row>)
    requires ItemsIn(items, index) && index.Keys == cells.Keys && n <= LOC_MAX && rows == Rows(items, cells, n)
    requires forall k :: k in cells ==> CellSized(cells[k])
    requires forall i, j :: 0 <= i < j < |items| ==> items[i].0 != items[j].0
    requires forall k :: k in index ==> exists i :: 0 <= i < |items| && items[i].0 == k
    ensures IsDump(rows, cells, n)
  {
    forall k | k in cells ensures HasRow(rows, k) {
      assert k in index;
      var i :| 0 <= i < |items| && items[i].0 == k;
      assert rows[i].id == k;
    }
  }

  /** A line of the dump. */
  datatype Row = Row(id: TraceId, columns: seq<(int, nat)>)

  predicate RowIn(row: Row, cells: map<TraceId, Cell>, n: nat) {
    row.id in cells && CellSized(cells[row.id]) && n <= LOC_MAX && row.columns == Columns(cells[row.id], n)
  }

  const TIMESTAMP_CYCLES: nat := 0
  const TIMESTAMP_TIMESPEC: nat := 1

  /** The program never sets its clock frequency. */
  const CPU_HZ := 0

  /** __get_time_ns. */
  function TimeNs(ts: Timestamp): nat {
    if ts.tsType == TIMESTAMP_CYCLES then ts.first * CPU_HZ
    else if ts.tsType == TIMESTAMP_TIMESPEC then (ts.first * 1000000000 + ts.second) % 0x1_0000_0000_0000_0000
    else 0
  }

  /** ns is the time a stamp records, in nanoseconds, by a clock of hz cycles a second. */
  predicate IsTime(ts: Timestamp, hz: real, ns: nat) {
    || (ts.tsType == TIMESTAMP_CYCLES && ns as real * hz == ts.first as real * 1000000000.0)
    || (ts.tsType == TIMESTAMP_TIMESPEC && ns == ts.first * 1000000000 + ts.second)
  }

  /** The dumped time is the recorded one exactly for stamps in seconds that fit in 64
      bits, and for stamps of no cycles. */
  lemma TimeIff(ts: Timestamp, hz: real)
    requires hz > 0.0
    ensures IsTime(ts, hz, TimeNs(ts)) <==>
            || (ts.tsType == TIMESTAMP_TIMESPEC && ts.first * 1000000000 + ts.second < 0x1_0000_0000_0000_0000)
            || (ts.tsType == TIMESTAMP_CYCLES && ts.first == 0)
  {}

  /** A second by a clock of one gigahertz is dumped as 0. */
  lemma CyclesDumpAsZero()
    ensures var ts := Timestamp(TIMESTAMP_CYCLES, 1000000000, 0);
            TimeNs(ts) == 0 && IsTime(ts, 1000000000.0, 1000000000)
  {}

  /** The thread id and time of the first n locations. */
  function Columns(c: Cell, n: nat): seq<(int, nat)>
    requires CellSized(c) && n <= LOC_MAX
  {
    seq(n, i requires 0 <= i < n => (c.tids[i], TimeNs(c.timestamps[i])))
  }

  function MaxLocation(m: nat, rs: seq<Record>): nat {
    if rs == [] then m
    else
      var rest, last := MaxLocation(m, rs[..|rs| - 1]), rs[|rs| - 1].location;
      if last > rest then last else rest
  }

  /** The greatest location of the records and of those before, which had m. */
  lemma {:induction false} MaxLocationIs(m: nat, rs: seq<Record>)
    ensures MaxLocation(m, rs) >= m && forall i :: 0 <= i < |rs| ==> rs[i].location <= MaxLocation(m, rs)
    ensures MaxLocation(m, rs) == m || exists i :: 0 <= i < |rs| && rs[i].location == MaxLocation(m, rs)
  {
    if rs != [] {
      var n := |rs| - 1;
      MaxLocationIs(m, rs[..n]);
      assert forall i :: 0 <= i < n ==> rs[i] == rs[..n][i];
    }
  }

  lemma NextRecord(m: nat, rs: seq<Record>, n: nat)
    requires n < |rs|
    ensures var rest := MaxLocation(m, rs[..n]);
            MaxLocation(m, rs[..n + 1]) == if rs[n].location > rest then rs[n].location else rest
  {
    assert rs[..n + 1][..n] == rs[..n];
  }

  lemma AcceptNext(t: Table<TraceId, nat>, hash: TraceId -> uint32, free: seq<uint32>, rs: seq<Record>,
                   acc: seq<Record>, acc': seq<Record>)
    requires Inv(t, hash) && rs != []
    requires acc' == if Takes(t, hash, free, rs[0]) then acc + [rs[0]] else acc
    ensures acc + AcceptedOf(t, hash, free, rs)
         == acc' + AcceptedOf(TableAfter(t, hash, free, rs[0]), hash, PoolAfter(t, free, rs[0]), rs[1..])
  {
    var later := AcceptedOf(TableAfter(t, hash, free, rs[0]), hash, PoolAfter(t, free, rs[0]), rs[1..]);
    AcceptFirst(t, hash, free, rs);
    Joined(acc, acc', Takes(t, hash, free, rs[0]), rs[0], AcceptedOf(t, hash, free, rs), later);
  }

  lemma AcceptFirst(t: Table<TraceId, nat>, hash: TraceId -> uint32, free: seq<uint32>, rs: seq<Record>)
    requires Inv(t, hash) && rs != []
    ensures AcceptedOf(t, hash, free, rs)
         == (if Takes(t, hash, free, rs[0]) then [rs[0]] else [])
              + AcceptedOf(TableAfter(t, hash, free, rs[0]), hash, PoolAfter(t, free, rs[0]), rs[1..])
  {}

  lemma Joined<T>(acc: seq<T>, acc': seq<T>, yes: bool, x: T, all: seq<T>, later: seq<T>)
    requires acc' == if yes then acc + [x] else acc
    requires all == (if yes then [x] else []) + later
    ensures acc + all == acc' + later
  {}

  /** Index and pool share the slots 0 to 16382 among them, so the hash table never
      runs out of ids before the pool is empty. */
  lemma IndexSmall(m: map<TraceId, Stored<nat>>, free: seq<uint32>)
    requires PoolOk(m, free)
    ensures |m| + |free| < 16384
  {
    var all := Below(TRACE_MAX - 1);
    FreeLeft(free, all);
    SlotsBound(m, all - FreeSet(free));
  }

  /** The numbers below n. */
  function Below(n: nat): (r: set<nat>)
    ensures |r| == n && forall x: nat :: x in r <==> x < n
  {
    if n == 0 then {} else Below(n - 1) + {n - 1}
  }

  function FreeSet(free: seq<uint32>): (r: set<nat>)
    ensures forall i :: 0 <= i < |free| ==> free[i] in r
    ensures forall x: nat :: x in r ==> exists i :: 0 <= i < |free| && free[i] == x
  {
    if free == [] then {} else FreeSet(free[..|free| - 1]) + {free[|free| - 1] as nat}
  }

  lemma {:induction false} FreeLeft(free: seq<uint32>, all: set<nat>)
    requires NoRepeats(free) && forall i :: 0 <= i < |free| ==> free[i] in all
    ensures |all - FreeSet(free)| == |all| - |free|
    decreases |free|
  {
    if free == [] {
      assert all - FreeSet(free) == all;
    } else {
      var n := |free| - 1;
      FreeLeft(free[..n], all);
      assert all - FreeSet(free) == (all - FreeSet(free[..n])) - {free[n] as nat};
    }
  }

  lemma {:induction false} SlotsBound(m: map<TraceId, Stored<nat>>, slots: set<nat>)
    requires forall k :: k in m ==> m[k].data in slots
    requires forall k, k' :: k in m && k' in m && k != k' ==> m[k].data != m[k'].data
    ensures |m| <= |slots|
    decreases |m|
  {
    if k :| k in m {
      assert |m - {k}| == |m| - 1;
      SlotsBound(m - {k}, slots - {m[k].data});
    }
  }

  lemma Accept(rs: seq<Record>, r: Record)
    requires Located(rs) && r.location < LOC_MAX
    ensures Located(rs + [r]) && Replay(rs + [r]) == PutIn(Replay(rs), r)
  {}

  lemma TakeFree(m: map<TraceId, Stored<nat>>, free: seq<uint32>)
    requires PoolOk(m, free) && free != []
    ensures PoolOk(m, free[1..]) && free[0] < TRACE_MAX - 1 && free[0] !in free[1..]
    ensures forall k :: k in m ==> m[k].data != free[0]
  {}

  lemma AddedNew(m: map<TraceId, Stored<nat>>, m': map<TraceId, Stored<nat>>, n: nat, k: TraceId, d: nat)
    requires k in m' && k !in m && AddMeans(m, m', n, k, d, m'[k].pos)
    ensures m' == m[k := Stored(m'[k].pos, d)]
  {}

  lemma PoolSize()
    ensures IsPowerOf2(4 * TRACE_MAX)
  {
    assert Pow2(8) == 256;
    Pow2Split(8, 16);
    IsPowerOf2Correct(65536);
  }

  /** No two keys share a trace slot, and no slot in use is in the pool; slot 16383
      is never handed out. */
  ghost predicate PoolOk(m: map<TraceId, Stored<nat>>, free: seq<uint32>) {
    && NoRepeats(free)
    && (forall i :: 0 <= i < |free| ==> free[i] < TRACE_MAX - 1)
    && (forall k :: k in m ==> m[k].data < TRACE_MAX - 1 && m[k].data !in free)
    && (forall k, k' :: k in m && k' in m && k != k' ==> m[k].data != m[k'].data)
  }

  /** The slots of the indexed keys hold the given cells. */
  ghost predicate SlotsHold(m: map<TraceId, Stored<nat>>, traces: seq<TraceData>, cells: map<TraceId, Cell>) {
    && m.Keys == cells.Keys
    && forall k :: k in m ==> m[k].data < |traces| && traces[m[k].data] == TraceData(m[k].data, cells[k])
  }

  // ---- what each step does to pool, index and cells --------------------------------------------

  /** Updating the slot of a present key. */
  lemma UpdateSlots(m: map<TraceId, Stored<nat>>, traces: seq<TraceData>, cells: map<TraceId, Cell>,
                    free: seq<uint32>, r: Record)
    requires PoolOk(m, free) && SlotsHold(m, traces, cells) && KeyOf(r) in m && r.location < LOC_MAX
    requires forall k :: k in cells ==> CellSized(cells[k])
    ensures var i := m[KeyOf(r)].data;
            SlotsHold(m, traces[i := TraceData(i, Put(traces[i].cell, r))], PutIn(cells, r))
  {}

  /** Filling a slot that is not in use. */
  lemma InsertSlot(m: map<TraceId, Stored<nat>>, traces: seq<TraceData>, cells: map<TraceId, Cell>,
                   free: seq<uint32>, r: Record, i: nat)
    requires PoolOk(m, free) && SlotsHold(m, traces, cells) && r.location < LOC_MAX && i < |traces|
    requires forall k :: k in m ==> m[k].data != i
    ensures SlotsHold(m, traces[i := TraceData(i, Put(ZeroCell(), r))], cells)
  {}

  /** Indexing a filled slot under a new key. */
  lemma IndexSlot(m: map<TraceId, Stored<nat>>, traces: seq<TraceData>, cells: map<TraceId, Cell>,
                  free: seq<uint32>, r: Record, i: nat,
                  m': map<TraceId, Stored<nat>>)
    requires PoolOk(m, free) && SlotsHold(m, traces, cells) && KeyOf(r) !in m && r.location < LOC_MAX
    requires i < |traces| && i < TRACE_MAX - 1 && i !in free && (forall k :: k in m ==> m[k].data != i)
    requires traces[i] == TraceData(i, Put(ZeroCell(), r)) && forall k :: k in cells ==> CellSized(cells[k])
    requires KeyOf(r) in m' && m' == m[KeyOf(r) := Stored(m'[KeyOf(r)].pos, i)]
    ensures PoolOk(m', free) && SlotsHold(m', traces, PutIn(cells, r))
  {}
}
