/** The ring of tools/ringbuffer.c shared by producers and one consumer, as a
    transition system with a step for every load, store, compare-and-swap and
    copied byte (sequential consistency assumed).

    Any number of producers reserve room by the separate loads and the compare-and-swap
    of ringbuffer_put; Reserve is the three steps made at once.  With several producers
    a message has at least one byte.  Positions are stored masked, so a compare-and-swap
    can succeed on a value that has come round again: a run is one in which no producer
    is lapped between its load and its compare-and-swap.  LapOverwrites shows what comes
    of a lap.  A lone producer is never lapped.

    The fields `accepted`, `got` and `published`, and the unmasked positions `loaded`,
    `start` and `seen`, record history: no step depends on them. */
module RingProtocol {
  import opened Bits
  import opened RingBuffer

  // ---- unmasked positions ------------------------------------------------------------------

  /** The place in a ring of n of the x-th byte ever written. */
  function Pos(x: nat, n: nat): (p: nat)
    requires n > 0
    ensures p < n
  {
    if x < n then x else Pos(x - n, n)
  }

  lemma {:induction false} PosAdd(x: nat, d: nat, n: nat)
    requires 0 < n && d <= n
    ensures Pos(x + d, n) == Wrap(Pos(x, n) + d, n)
  {
    if x >= n { PosAdd(x - n, d, n); }
  }

  /** Bytes less than a full turn apart have different places. */
  lemma PosDiffer(x: nat, y: nat, n: nat)
    requires 0 < n && x < y < x + n
    ensures Pos(x, n) != Pos(y, n)
  {}

  lemma PosDistance(x: nat, d: nat, n: nat)
    requires d < n
    ensures Distance(Pos(x + d, n), Pos(x, n), n) == d
  {
    PosAdd(x, d, n);
  }

  // ---- states ---------------------------------------------------------------------------------

  type Message = b: seq<byte> | |b| < 0x1_0000_0000

  /** A producer inside ringbuffer_put(buf). */
  datatype Producer =
    | Idle
    | Starting(buf: Message)
    | LoadedWrite(buf: Message, writeOld: uint32, loaded: nat)
    | LoadedRead(buf: Message, writeOld: uint32, loaded: nat)
    | Copying(buf: Message, writeOld: uint32, start: nat, copied: set<nat>)

  /** The consumer inside ringbuffer_get(len). */
  datatype Consumer =
    | Resting
    | Asked(len: uint32)
    | LoadedFinish(len: uint32, writeLocal: uint32, seen: nat)
    | Reading(readOld: uint32, n: uint32, taken: map<nat, byte>)

  datatype State = State(
    size: uint32, readPos: uint32, writePos: uint32, finishPos: uint32, data: seq<byte>,
    producers: seq<Producer>, consumer: Consumer,
    accepted: seq<byte>, published: nat, got: seq<byte>)

  // ---- the invariant ----------------------------------------------------------------------------

  /** The stored positions are the masked numbers of bytes got, published and
      accepted; one byte of the buffer stays unused. */
  ghost predicate Positions(s: State) {
    && IsPow2(s.size) && 0 < s.size && |s.data| == s.size
    && |s.got| <= s.published <= |s.accepted| < |s.got| + s.size
    && s.readPos == Pos(|s.got|, s.size)
    && s.writePos == Pos(|s.accepted|, s.size)
    && s.finishPos == Pos(s.published, s.size)
  }

  /** The bytes from `start` on are reserved for buf and nobody has passed them on;
      those counted as copied are in place. */
  ghost predicate Reservation(s: State, q: Producer)
    requires Positions(s) && q.Copying?
  {
    && q.writeOld == Pos(q.start, s.size)
    && s.published <= q.start && q.start + |q.buf| <= |s.accepted|
    && s.accepted[q.start..q.start + |q.buf|] == q.buf
    && MayPut(s, q.buf)
    && forall k {:trigger k in q.copied} ::
         k in q.copied ==> k < |q.buf| && s.data[Pos(q.start + k, s.size)] == q.buf[k]
  }

  predicate MayPut(s: State, buf: Message) {
    |buf| > 0 || |s.producers| == 1
  }

  /** A write position loaded when `loaded` bytes were accepted. */
  ghost predicate Loaded(s: State, w: uint32, loaded: nat)
    requires Positions(s)
  {
    w == Pos(loaded, s.size) && loaded <= |s.accepted| && (|s.producers| == 1 ==> loaded == |s.accepted|)
  }

  ghost predicate ProducerOk(s: State, q: Producer)
    requires Positions(s)
  {
    match q
    case Idle => true
    case Starting(buf) => MayPut(s, buf)
    case LoadedWrite(buf, w, loaded) => MayPut(s, buf) && Loaded(s, w, loaded)
    case LoadedRead(buf, w, loaded) =>
      MayPut(s, buf) && Loaded(s, w, loaded) && (loaded == |s.accepted| ==> loaded + |buf| < |s.got| + s.size)
    case Copying(_, _, _, _) => Reservation(s, q)
  }

  ghost predicate ConsumerOk(s: State)
    requires Positions(s)
  {
    match s.consumer
    case Resting => true
    case Asked(_) => true
    case LoadedFinish(_, w, seen) => |s.got| <= seen <= s.published && w == Pos(seen, s.size)
    case Reading(readOld, n, taken) =>
      && readOld == s.readPos && |s.got| + n <= s.published
      && forall k {:trigger k in taken} :: k in taken ==> k < n && taken[k] == s.accepted[|s.got| + k]
  }

  /** Producer p has reserved, and not yet published, the x-th byte. */
  ghost predicate Owns(s: State, p: nat, x: nat) {
    && p < |s.producers| && s.producers[p].Copying?
    && s.producers[p].start <= x < s.producers[p].start + |s.producers[p].buf|
  }

  ghost predicate Owned(s: State, x: nat) {
    exists p: nat :: Owns(s, p, x)
  }

  /** The pending reservations partition the bytes accepted and not published. */
  ghost predicate Partition(s: State) {
    && (forall p: nat, q: nat, x: nat :: Owns(s, p, x) && Owns(s, q, x) ==> p == q)
    && (forall x: nat :: s.published <= x < |s.accepted| ==> Owned(s, x))
  }

  /** Published bytes not yet got are intact. */
  ghost predicate Stored(s: State)
    requires Positions(s)
  {
    forall x: nat {:trigger s.accepted[x]} :: |s.got| <= x < s.published ==> s.data[Pos(x, s.size)] == s.accepted[x]
  }

  ghost predicate Inv(s: State) {
    && Positions(s) && Partition(s) && Stored(s) && ConsumerOk(s)
    && (forall p :: 0 <= p < |s.producers| ==> ProducerOk(s, s.producers[p]))
    && s.got == s.accepted[..|s.got|]
  }

  // ---- steps --------------------------------------------------------------------------------------

  datatype Step =
    | Start(p: nat, input: Message)
    | LoadWrite(p: nat)
    | LoadRead(p: nat)
    | CasWrite(p: nat)
    | Reserve(p: nat, input: Message)
    | CopyIn(p: nat, k: nat)
    | Publish(p: nat)
    | Ask(len: uint32)
    | LoadFinishPos
    | LoadReadPos
    | CopyOut(k: nat)
    | StoreRead

  /** Where byte k of an n-byte copy from masked position pos lies: the part up to
      the end of the buffer comes first, the rest goes to its beginning. */
  function Place(pos: uint32, k: nat, n: nat, size: uint32): nat {
    var base := Advance(pos, 0, size);
    var l := if n > size - base then size - base else n;
    if k < l then base + k else k - l
  }

  lemma PlaceIs(x: nat, k: nat, n: nat, size: uint32)
    requires IsPow2(size) && k < n <= size
    ensures Place(Pos(x, size), k, n, size) == Pos(x + k, size)
  {
    MaskedSum(Pos(x, size), 0, size);
    PosAdd(x, k, size);
  }

  predicate IsAt(s: State, p: nat) {
    p < |s.producers|
  }

  /** A producer runs through Start, LoadWrite, LoadRead and CasWrite, or makes a
      Reserve step. */
  predicate Enabled(s: State, a: Step) {
    match a
    case Start(p, input) => IsAt(s, p) && s.producers[p].Idle? && MayPut(s, input)
    case LoadWrite(p) => IsAt(s, p) && s.producers[p].Starting?
    case LoadRead(p) => IsAt(s, p) && s.producers[p].LoadedWrite?
    case CasWrite(p) => IsAt(s, p) && s.producers[p].LoadedRead?
    case Reserve(p, input) => IsAt(s, p) && s.producers[p].Idle? && |input| > 0
    case CopyIn(p, k) =>
      IsAt(s, p) && s.producers[p].Copying? && k < |s.producers[p].buf| && k !in s.producers[p].copied
    case Publish(p) =>
      IsAt(s, p) && s.producers[p].Copying? && forall k: nat :: k < |s.producers[p].buf| ==> k in s.producers[p].copied
    case Ask(_) => s.consumer.Resting?
    case LoadFinishPos => s.consumer.Asked?
    case LoadReadPos => s.consumer.LoadedFinish?
    case CopyOut(k) => s.consumer.Reading? && k < s.consumer.n && k !in s.consumer.taken
    case StoreRead => s.consumer.Reading? && forall k: nat :: k < s.consumer.n ==> k in s.consumer.taken
  }

  function SetProducer(s: State, p: nat, q: Producer): State
    requires IsAt(s, p)
  {
    s.(producers := s.producers[p := q])
  }

  /** The compare-and-swap on write_pos succeeds: producer p owns the next bytes. */
  function Reserved(s: State, p: nat, buf: Message): State
    requires IsAt(s, p)
  {
    SetProducer(s, p, Copying(buf, s.writePos, |s.accepted|, {}))
      .(writePos := Advance(s.writePos, |buf|, s.size), accepted := s.accepted + buf)
  }

  function AfterLoadRead(s: State, p: nat): State
    requires IsAt(s, p) && s.producers[p].LoadedWrite?
  {
    var q := s.producers[p];
    if RestSize(q.writeOld, s.readPos, s.size) <= |q.buf| then SetProducer(s, p, Idle)
    else SetProducer(s, p, LoadedRead(q.buf, q.writeOld, q.loaded))
  }

  function AfterCopyIn(s: State, p: nat, k: nat): State
    requires Inv(s) && Enabled(s, CopyIn(p, k))
  {
    var q := s.producers[p];
    assert ProducerOk(s, q);
    PlaceIs(q.start, k, |q.buf|, s.size);
    SetProducer(s, p, q.(copied := q.copied + {k})).(data := s.data[Place(q.writeOld, k, |q.buf|, s.size) := q.buf[k]])
  }

  function AfterPublish(s: State, p: nat): State
    requires IsAt(s, p) && s.producers[p].Copying?
  {
    var q := s.producers[p];
    if s.finishPos == q.writeOld then
      SetProducer(s, p, Idle).(finishPos := Advance(q.writeOld, |q.buf|, s.size), published := s.published + |q.buf|)
    else s
  }

  function AfterLoadReadPos(s: State): State
    requires s.consumer.LoadedFinish?
  {
    var used := UsedSize(s.consumer.writeLocal, s.readPos, s.size);
    var n := if s.consumer.len > used then used else s.consumer.len;
    s.(consumer := if n == 0 then Resting else Reading(s.readPos, n, map[]))
  }

  function AfterCopyOut(s: State, k: nat): State
    requires Inv(s) && Enabled(s, CopyOut(k))
  {
    var c := s.consumer;
    PlaceIs(|s.got|, k, c.n, s.size);
    s.(consumer := c.(taken := c.taken[k := s.data[Place(c.readOld, k, c.n, s.size)]]))
  }

  /** The bytes a completed get has put in the caller's buffer. */
  function Taken(n: uint32, taken: map<nat, byte>): seq<byte>
    requires forall k: nat :: k < n ==> k in taken
  {
    seq(n, k requires 0 <= k < n => taken[k])
  }

  function AfterStoreRead(s: State): State
    requires Enabled(s, StoreRead)
  {
    var c := s.consumer;
    s.(consumer := Resting, got := s.got + Taken(c.n, c.taken),
       readPos := Advance(c.readOld, c.n, s.size))
  }

  function Apply(s: State, a: Step): State
    requires Inv(s) && Enabled(s, a)
  {
    match a
    case Start(p, input) => SetProducer(s, p, Starting(input))
    case LoadWrite(p) => SetProducer(s, p, LoadedWrite(s.producers[p].buf, s.writePos, |s.accepted|))
    case LoadRead(p) => AfterLoadRead(s, p)
    case CasWrite(p) =>
      if s.writePos == s.producers[p].writeOld then Reserved(s, p, s.producers[p].buf)
      else SetProducer(s, p, Starting(s.producers[p].buf))
    case Reserve(p, input) =>
      if RestSize(s.writePos, s.readPos, s.size) <= |input| then s else Reserved(s, p, input)
    case CopyIn(p, k) => AfterCopyIn(s, p, k)
    case Publish(p) => AfterPublish(s, p)
    case Ask(len) => s.(consumer := Asked(len))
    case LoadFinishPos => s.(consumer := LoadedFinish(s.consumer.len, s.finishPos, s.published))
    case LoadReadPos => AfterLoadReadPos(s)
    case CopyOut(k) => AfterCopyOut(s, k)
    case StoreRead => AfterStoreRead(s)
  }

  // ---- every step keeps the invariant ----------------------------------------------------------------

  /** Steps that change a producer's registers only. */
  lemma LocalKeeps(s: State, p: nat, q: Producer)
    requires Inv(s) && IsAt(s, p) && !s.producers[p].Copying? && !q.Copying? && ProducerOk(s, q)
    ensures Inv(SetProducer(s, p, q))
  {
    var s' := SetProducer(s, p, q);
    SameOwners(s, s');
    forall r | 0 <= r < |s'.producers| ensures ProducerOk(s', s'.producers[r]) {
      assert ProducerOk(s, s.producers[r]);
    }
  }

  lemma SameOwners(s: State, s': State)
    requires Partition(s) && s'.published == s.published && |s'.accepted| == |s.accepted|
    requires forall r: nat, x: nat :: Owns(s', r, x) <==> Owns(s, r, x)
    ensures Partition(s')
  {
    forall x: nat | s'.published <= x < |s'.accepted| ensures Owned(s', x) {
      assert Owned(s, x);
      var r: nat :| Owns(s, r, x);
      assert Owns(s', r, x);
    }
  }

  lemma LoadReadKeeps(s: State, p: nat)
    requires Inv(s) && Enabled(s, LoadRead(p))
    ensures Inv(AfterLoadRead(s, p))
  {
    var q := s.producers[p];
    assert ProducerOk(s, q);
    SizesAreDistances(s.writePos, s.readPos, s.size);
    PosDistance(|s.got|, |s.accepted| - |s.got|, s.size);
    if RestSize(q.writeOld, s.readPos, s.size) <= |q.buf| {
      LocalKeeps(s, p, Idle);
    } else {
      LocalKeeps(s, p, LoadedRead(q.buf, q.writeOld, q.loaded));
    }
  }

  lemma ReservedKeeps(s: State, p: nat, buf: Message)
    requires Inv(s) && IsAt(s, p) && !s.producers[p].Copying?
    requires |s.accepted| + |buf| < |s.got| + s.size && MayPut(s, buf)
    ensures Inv(Reserved(s, p, buf))
  {
    var s' := Reserved(s, p, buf);
    MaskedSum(s.writePos, |buf|, s.size);
    PosAdd(|s.accepted|, |buf|, s.size);
    ReservedPartition(s, p, buf);
    ReservedProducers(s, p, buf);
    assert s'.got == s'.accepted[..|s'.got|] by { assert s.got == s.accepted[..|s.got|]; }
  }

  lemma ReservedProducers(s: State, p: nat, buf: Message)
    requires Inv(s) && IsAt(s, p) && !s.producers[p].Copying? && Positions(Reserved(s, p, buf))
    requires MayPut(s, buf)
    ensures var s' := Reserved(s, p, buf);
            forall r :: 0 <= r < |s'.producers| ==> ProducerOk(s', s'.producers[r])
  {
    var s' := Reserved(s, p, buf);
    forall r | 0 <= r < |s'.producers| ensures ProducerOk(s', s'.producers[r]) {
      assert ProducerOk(s, s.producers[r]);
      if r != p { OtherKeeps(s, s', s.producers[r]); }
    }
  }

  /** Another producer's reservation disturbs none. */
  lemma OtherKeeps(s: State, s': State, q: Producer)
    requires Positions(s) && Positions(s') && ProducerOk(s, q) && |s.producers| == |s'.producers| > 1
    requires s'.size == s.size && s'.got == s.got && s'.published == s.published && s'.data == s.data
    requires s.accepted < s'.accepted
    ensures ProducerOk(s', q)
  {}

  lemma ReservedPartition(s: State, p: nat, buf: Message)
    requires Inv(s) && IsAt(s, p) && !s.producers[p].Copying?
    ensures Partition(Reserved(s, p, buf))
  {
    var s' := Reserved(s, p, buf);
    forall r: nat, x: nat | Owns(s', r, x)
      ensures if r == p then x >= |s.accepted| else Owns(s, r, x) && x < |s.accepted|
    {
      if r != p { assert ProducerOk(s, s.producers[r]); }
    }
    forall x: nat | s'.published <= x < |s'.accepted| ensures Owned(s', x) {
      if x < |s.accepted| {
        assert Owned(s, x);
        var r: nat :| Owns(s, r, x);
        assert Owns(s', r, x);
      } else {
        assert Owns(s', p, x);
      }
    }
  }

  /** A byte copied into a reservation lands on no byte published and not yet got,
      and on no other byte reserved. */
  lemma CopyInLandsClear(s: State, p: nat, k: nat, x: nat)
    requires Inv(s) && Enabled(s, CopyIn(p, k)) && |s.got| <= x < |s.accepted|
    requires x != s.producers[p].start + k
    ensures Pos(x, s.size) != Pos(s.producers[p].start + k, s.size)
  {
    var q := s.producers[p];
    assert ProducerOk(s, q);
    if x < q.start + k { PosDiffer(x, q.start + k, s.size); } else { PosDiffer(q.start + k, x, s.size); }
  }

  /** AfterCopyIn in unmasked terms. */
  ghost function CopiedIn(s: State, p: nat, k: nat): State
    requires Inv(s) && Enabled(s, CopyIn(p, k))
  {
    var q := s.producers[p];
    SetProducer(s, p, q.(copied := q.copied + {k})).(data := s.data[Pos(q.start + k, s.size) := q.buf[k]])
  }

  lemma CopyInIs(s: State, p: nat, k: nat)
    requires Inv(s) && Enabled(s, CopyIn(p, k))
    ensures AfterCopyIn(s, p, k) == CopiedIn(s, p, k)
  {
    var q := s.producers[p];
    assert ProducerOk(s, q);
    PlaceIs(q.start, k, |q.buf|, s.size);
  }

  lemma CopyInKeeps(s: State, p: nat, k: nat)
    requires Inv(s) && Enabled(s, CopyIn(p, k))
    ensures Inv(CopiedIn(s, p, k))
  {
    var s' := CopiedIn(s, p, k);
    assert ProducerOk(s, s.producers[p]);
    SameOwners(s, s');
    forall x: nat | |s.got| <= x < s.published
      ensures s'.data[Pos(x, s.size)] == s.data[Pos(x, s.size)]
    {
      CopyInLandsClear(s, p, k, x);
    }
    forall r | 0 <= r < |s'.producers| ensures ProducerOk(s', s'.producers[r]) {
      CopyInProducers(s, p, k, r);
    }
  }

  lemma CopyInProducers(s: State, p: nat, k: nat, r: nat)
    requires Inv(s) && Enabled(s, CopyIn(p, k)) && IsAt(s, r) && Positions(CopiedIn(s, p, k))
    ensures ProducerOk(CopiedIn(s, p, k), CopiedIn(s, p, k).producers[r])
  {
    var q := s.producers[r];
    assert ProducerOk(s, q);
    if q.Copying? {
      var s' := CopiedIn(s, p, k);
      forall j | j in q.copied || (r == p && j == k)
        ensures j < |q.buf| && s'.data[Pos(q.start + j, s.size)] == q.buf[j]
      {
        CopiedByte(s, p, k, r, j);
      }
      CopyInReservation(s, q, s', s'.producers[r]);
    }
  }

  lemma CopyInReservation(s: State, q: Producer, s': State, q': Producer)
    requires Positions(s) && Positions(s') && q.Copying? && Reservation(s, q)
    requires s'.size == s.size && s'.accepted == s.accepted && s'.published == s.published
    requires |s'.producers| == |s.producers|
    requires q'.Copying? && q'.buf == q.buf && q'.start == q.start && q'.writeOld == q.writeOld
    requires forall j {:trigger j in q'.copied} ::
               j in q'.copied ==> j < |q.buf| && s'.data[Pos(q.start + j, s.size)] == q.buf[j]
    ensures Reservation(s', q')
  {}

  lemma CopiedByte(s: State, p: nat, k: nat, r: nat, j: nat)
    requires Inv(s) && Enabled(s, CopyIn(p, k)) && IsAt(s, r) && s.producers[r].Copying?
    requires j in s.producers[r].copied || (r == p && j == k)
    ensures j < |s.producers[r].buf|
    ensures CopiedIn(s, p, k).data[Pos(s.producers[r].start + j, s.size)] == s.producers[r].buf[j]
  {
    var q := s.producers[r];
    assert ProducerOk(s, q);
    if !(r == p && j == k) {
      CopyInElsewhere(s, p, k, r, j);
    }
  }

  lemma CopyInElsewhere(s: State, p: nat, k: nat, r: nat, j: nat)
    requires Inv(s) && Enabled(s, CopyIn(p, k)) && IsAt(s, r) && !(r == p && j == k)
    requires s.producers[r].Copying? && j in s.producers[r].copied
    ensures Pos(s.producers[r].start + j, s.size) != Pos(s.producers[p].start + k, s.size)
  {
    var q, q' := s.producers[p], s.producers[r];
    assert ProducerOk(s, q) && ProducerOk(s, q');
    if q'.start + j == q.start + k {
      assert Owns(s, p, q.start + k) && Owns(s, r, q.start + k);
    }
    CopyInLandsClear(s, p, k, q'.start + j);
  }

  /** Only the oldest reservation can be published. */
  lemma PublishesOldest(s: State, p: nat)
    requires Inv(s) && IsAt(s, p) && s.producers[p].Copying?
    ensures s.finishPos == s.producers[p].writeOld <==> s.producers[p].start == s.published
  {
    var q := s.producers[p];
    assert ProducerOk(s, q);
    if q.start > s.published { PosDiffer(s.published, q.start, s.size); }
  }

  lemma PublishKeeps(s: State, p: nat)
    requires Inv(s) && Enabled(s, Publish(p))
    ensures Inv(AfterPublish(s, p))
  {
    PublishesOldest(s, p);
    assert ProducerOk(s, s.producers[p]);
    if s.producers[p].start == s.published {
      PublishedPositions(s, p);
      PublishedBytes(s, p);
      PublishedProducers(s, p);
      PublishedPartition(s, p);
    }
  }

  lemma PublishedPositions(s: State, p: nat)
    requires Inv(s) && Enabled(s, Publish(p)) && s.producers[p].start == s.published
    ensures s.finishPos == s.producers[p].writeOld && Positions(AfterPublish(s, p))
  {
    var q := s.producers[p];
    assert ProducerOk(s, q);
    MaskedSum(q.writeOld, |q.buf|, s.size);
    PosAdd(q.start, |q.buf|, s.size);
  }

  lemma PublishedProducers(s: State, p: nat)
    requires Inv(s) && Enabled(s, Publish(p)) && s.producers[p].start == s.published
    requires Positions(AfterPublish(s, p)) && s.finishPos == s.producers[p].writeOld
    ensures var s' := AfterPublish(s, p);
            forall r :: 0 <= r < |s'.producers| ==> ProducerOk(s', s'.producers[r])
  {
    var s' := AfterPublish(s, p);
    forall r | 0 <= r < |s'.producers| ensures ProducerOk(s', s'.producers[r]) {
      assert ProducerOk(s, s.producers[r]);
      if r != p && s.producers[r].Copying? { LaterReservation(s, p, r); }
    }
  }

  lemma PublishedBytes(s: State, p: nat)
    requires Inv(s) && Enabled(s, Publish(p)) && s.producers[p].start == s.published
    ensures forall x: nat :: |s.got| <= x < s.published + |s.producers[p].buf| ==>
              x < |s.accepted| && s.data[Pos(x, s.size)] == s.accepted[x]
  {
    var q := s.producers[p];
    assert ProducerOk(s, q);
    forall x: nat | s.published <= x < s.published + |q.buf|
      ensures x < |s.accepted| && s.data[Pos(x, s.size)] == s.accepted[x]
    {
      var k := x - q.start;
      assert k in q.copied && Pos(q.start + k, s.size) == Pos(x, s.size);
      assert q.buf[k] == s.accepted[q.start..q.start + |q.buf|][k];
    }
  }

  /** Of two pending reservations, the one that is not the oldest lies behind it. */
  lemma LaterReservation(s: State, p: nat, r: nat)
    requires Inv(s) && IsAt(s, p) && IsAt(s, r) && r != p && s.producers[p].Copying? && s.producers[r].Copying?
    requires s.producers[p].start == s.published
    ensures s.producers[r].start >= s.published + |s.producers[p].buf|
  {
    var q, q' := s.producers[p], s.producers[r];
    assert ProducerOk(s, q) && ProducerOk(s, q');
    if q'.start < s.published + |q.buf| {
      assert Owns(s, p, q'.start) && Owns(s, r, q'.start);
    }
  }

  lemma PublishedPartition(s: State, p: nat)
    requires Inv(s) && Enabled(s, Publish(p)) && s.producers[p].start == s.published
    requires s.finishPos == s.producers[p].writeOld
    ensures Partition(AfterPublish(s, p))
  {
    var s' := AfterPublish(s, p);
    assert forall r: nat, x: nat :: Owns(s', r, x) ==> Owns(s, r, x);
    forall x: nat | s'.published <= x < |s'.accepted| ensures Owned(s', x) {
      assert Owned(s, x);
      var r: nat :| Owns(s, r, x);
      assert Owns(s', r, x);
    }
  }

  // ---- the consumer ---------------------------------------------------------------------------------

  /** What the consumer computes to be ready is what it has seen published. */
  lemma UsedIs(s: State)
    requires Inv(s) && s.consumer.LoadedFinish?
    ensures UsedSize(s.consumer.writeLocal, s.readPos, s.size) == s.consumer.seen - |s.got|
  {
    var c := s.consumer;
    SizesAreDistances(c.writeLocal, s.readPos, s.size);
    PosDistance(|s.got|, c.seen - |s.got|, s.size);
  }

  lemma LoadReadPosKeeps(s: State)
    requires Inv(s) && Enabled(s, LoadReadPos)
    ensures Inv(AfterLoadReadPos(s))
  {
    UsedIs(s);
    ConsumerKeeps(s, AfterLoadReadPos(s).consumer);
  }

  lemma ConsumerKeeps(s: State, c: Consumer)
    requires Inv(s) && ConsumerOk(s.(consumer := c))
    ensures Inv(s.(consumer := c))
  {
    var s' := s.(consumer := c);
    SameOwners(s, s');
    forall r | 0 <= r < |s'.producers| ensures ProducerOk(s', s'.producers[r]) {
      assert ProducerOk(s, s.producers[r]);
    }
  }

  lemma CopyOutIs(s: State, k: nat)
    requires Inv(s) && Enabled(s, CopyOut(k))
    ensures AfterCopyOut(s, k).consumer == s.consumer.(taken := s.consumer.taken[k := s.accepted[|s.got| + k]])
  {
    PlaceIs(|s.got|, k, s.consumer.n, s.size);
  }

  lemma CopyOutKeeps(s: State, k: nat)
    requires Inv(s) && Enabled(s, CopyOut(k))
    ensures Inv(AfterCopyOut(s, k))
  {
    CopyOutIs(s, k);
    TakenKeeps(s, k);
  }

  lemma TakenKeeps(s: State, k: nat)
    requires Inv(s) && s.consumer.Reading? && k < s.consumer.n
    ensures |s.got| + k < |s.accepted|
    ensures Inv(s.(consumer := s.consumer.(taken := s.consumer.taken[k := s.accepted[|s.got| + k]])))
  {
    var c := s.consumer;
    var c' := c.(taken := c.taken[k := s.accepted[|s.got| + k]]);
    assert forall j {:trigger j in c'.taken} :: j in c'.taken ==> j == k || j in c.taken;
    ConsumerKeeps(s, c');
  }

  /** AfterStoreRead in unmasked terms. */
  ghost function Delivered(s: State): State
    requires Inv(s) && Enabled(s, StoreRead)
  {
    var m := |s.got| + s.consumer.n;
    s.(consumer := Resting, got := s.accepted[..m], readPos := Pos(m, s.size))
  }

  lemma TakenAre(n: uint32, taken: map<nat, byte>, bytes: seq<byte>, g: nat)
    requires (forall k: nat :: k < n ==> k in taken) && g + n <= |bytes|
    requires forall k: nat {:trigger k in taken} :: k < n && k in taken ==> taken[k] == bytes[g + k]
    ensures bytes[..g] + Taken(n, taken) == bytes[..g + n]
  {
    var t := Taken(n, taken);
    forall k: nat | k < n ensures t[k] == bytes[g + k] { assert k in taken; }
  }

  lemma TakenBytes(s: State)
    requires Inv(s) && Enabled(s, StoreRead)
    ensures AfterStoreRead(s).got == s.accepted[..|s.got| + s.consumer.n]
  {
    TakenAre(s.consumer.n, s.consumer.taken, s.accepted, |s.got|);
  }

  lemma StoreReadIs(s: State)
    requires Inv(s) && Enabled(s, StoreRead)
    ensures AfterStoreRead(s) == Delivered(s)
  {
    TakenBytes(s);
    ReadAdvances(s);
  }

  lemma ReadAdvances(s: State)
    requires Inv(s) && s.consumer.Reading?
    ensures Advance(s.consumer.readOld, s.consumer.n, s.size) == Pos(|s.got| + s.consumer.n, s.size)
  {
    MaskedSum(s.readPos, s.consumer.n, s.size);
    PosAdd(|s.got|, s.consumer.n, s.size);
  }

  lemma StoreReadKeeps(s: State)
    requires Inv(s) && Enabled(s, StoreRead)
    ensures Inv(Delivered(s))
  {
    var s' := Delivered(s);
    SameOwners(s, s');
    forall r | 0 <= r < |s'.producers| ensures ProducerOk(s', s'.producers[r]) {
      assert ProducerOk(s, s.producers[r]);
    }
  }

  /** At a compare-and-swap of one of several producers, less than a full ring has been
      accepted since it loaded the write position. */
  predicate NoLap(s: State, a: Step)
    requires Enabled(s, a)
  {
    a.CasWrite? && |s.producers| > 1 ==> |s.accepted| < s.producers[a.p].loaded + s.size
  }

  /** Without a lap the compare-and-swap succeeds only if nothing was accepted since. */
  lemma NoLapMeans(s: State, p: nat)
    requires Inv(s) && Enabled(s, CasWrite(p)) && NoLap(s, CasWrite(p)) && s.writePos == s.producers[p].writeOld
    ensures s.producers[p].loaded == |s.accepted|
  {
    var q := s.producers[p];
    assert ProducerOk(s, q);
    if q.loaded < |s.accepted| { PosDiffer(q.loaded, |s.accepted|, s.size); }
  }

  lemma CasKeeps(s: State, p: nat)
    requires Inv(s) && Enabled(s, CasWrite(p)) && NoLap(s, CasWrite(p))
    ensures Inv(Apply(s, CasWrite(p)))
  {
    assert ProducerOk(s, s.producers[p]);
    if s.writePos == s.producers[p].writeOld {
      NoLapMeans(s, p);
      ReservedKeeps(s, p, s.producers[p].buf);
    } else {
      LocalKeeps(s, p, Starting(s.producers[p].buf));
    }
  }

  /** A compare-and-swap that succeeds keeps the invariant exactly if there still is
      room. */
  lemma CasSafeIff(s: State, p: nat)
    requires Inv(s) && Enabled(s, CasWrite(p)) && s.writePos == s.producers[p].writeOld
    ensures Inv(Apply(s, CasWrite(p))) <==> |s.accepted| + |s.producers[p].buf| < |s.got| + s.size
  {
    assert ProducerOk(s, s.producers[p]);
    if |s.accepted| + |s.producers[p].buf| < |s.got| + s.size {
      ReservedKeeps(s, p, s.producers[p].buf);
    }
  }

  /** The invariant is inductive. */
  lemma StepKeeps(s: State, a: Step)
    requires Inv(s) && Enabled(s, a) && NoLap(s, a)
    ensures Inv(Apply(s, a))
  {
    match a
    case Start(p, input) => LocalKeeps(s, p, Starting(input));
    case LoadWrite(p) =>
      assert ProducerOk(s, s.producers[p]);
      LocalKeeps(s, p, LoadedWrite(s.producers[p].buf, s.writePos, |s.accepted|));
    case LoadRead(p) => LoadReadKeeps(s, p);
    case CasWrite(p) => CasKeeps(s, p);
    case Reserve(p, input) => ReserveKeeps(s, p, input);
    case CopyIn(p, k) => CopyInIs(s, p, k); CopyInKeeps(s, p, k);
    case Publish(p) => PublishKeeps(s, p);
    case Ask(len) => ConsumerKeeps(s, Asked(len));
    case LoadFinishPos => ConsumerKeeps(s, LoadedFinish(s.consumer.len, s.finishPos, s.published));
    case LoadReadPos => LoadReadPosKeeps(s);
    case CopyOut(k) => CopyOutKeeps(s, k);
    case StoreRead => StoreReadIs(s); StoreReadKeeps(s);
  }

  lemma ReserveKeeps(s: State, p: nat, input: Message)
    requires Inv(s) && Enabled(s, Reserve(p, input))
    ensures Inv(Apply(s, Reserve(p, input)))
  {
    SizesAreDistances(s.writePos, s.readPos, s.size);
    PosDistance(|s.got|, |s.accepted| - |s.got|, s.size);
    if RestSize(s.writePos, s.readPos, s.size) > |input| {
      ReservedKeeps(s, p, input);
    }
  }

  // ---- whole runs -----------------------------------------------------------------------------------

  ghost predicate Initial(s: State) {
    && IsPow2(s.size) && 0 < s.size && |s.data| == s.size
    && s.readPos == s.writePos == s.finishPos == 0
    && s.accepted == s.got == [] && s.published == 0
    && s.consumer == Resting && forall p :: 0 <= p < |s.producers| ==> s.producers[p] == Idle
  }

  lemma InitialInv(s: State)
    requires Initial(s)
    ensures Inv(s)
  {}

  /** An interleaving: the states passed through and the step taken from each. */
  ghost predicate IsRun(ss: seq<State>, steps: seq<Step>) {
    && |ss| == |steps| + 1 && Initial(ss[0])
    && forall i :: 0 <= i < |steps| && Inv(ss[i]) ==> Moves(ss[i], steps[i], ss[i + 1])
  }

  ghost predicate Moves(s: State, a: Step, s': State)
    requires Inv(s)
  {
    Enabled(s, a) && NoLap(s, a) && s' == Apply(s, a)
  }

  lemma {:induction false} RunKeeps(ss: seq<State>, steps: seq<Step>, i: nat)
    requires IsRun(ss, steps) && i < |ss|
    ensures Inv(ss[i])
  {
    if i == 0 {
      InitialInv(ss[0]);
    } else {
      RunKeeps(ss, steps, i - 1);
      assert Moves(ss[i - 1], steps[i - 1], ss[i]);
      StepKeeps(ss[i - 1], steps[i - 1]);
    }
  }

  /** The message whose reservation a step makes, if any. */
  ghost function Puts(s: State, a: Step): seq<byte>
    requires Enabled(s, a)
  {
    match a
    case CasWrite(p) => if s.writePos == s.producers[p].writeOld then s.producers[p].buf else []
    case Reserve(p, input) => if RestSize(s.writePos, s.readPos, s.size) <= |input| then [] else input
    case _ => []
  }

  /** The bytes a step hands to the caller of get. */
  ghost function Gets(s: State, a: Step): seq<byte>
    requires Enabled(s, a)
  {
    match a
    case StoreRead => Taken(s.consumer.n, s.consumer.taken)
    case _ => []
  }

  /** All messages accepted in the first n steps, in the order of their reservations. */
  ghost function AllPuts(ss: seq<State>, steps: seq<Step>, n: nat): seq<byte>
    requires n <= |steps| < |ss| && forall i :: 0 <= i < n ==> Enabled(ss[i], steps[i])
  {
    if n == 0 then [] else AllPuts(ss, steps, n - 1) + Puts(ss[n - 1], steps[n - 1])
  }

  /** All bytes got in the first n steps. */
  ghost function AllGets(ss: seq<State>, steps: seq<Step>, n: nat): seq<byte>
    requires n <= |steps| < |ss| && forall i :: 0 <= i < n ==> Enabled(ss[i], steps[i])
  {
    if n == 0 then [] else AllGets(ss, steps, n - 1) + Gets(ss[n - 1], steps[n - 1])
  }

  lemma StepHistory(s: State, a: Step)
    requires Inv(s) && Enabled(s, a)
    ensures Apply(s, a).accepted == s.accepted + Puts(s, a)
    ensures Apply(s, a).got == s.got + Gets(s, a)
  {}

  lemma {:induction false} RunHistory(ss: seq<State>, steps: seq<Step>, n: nat)
    requires IsRun(ss, steps) && n <= |steps|
    ensures forall i :: 0 <= i < n ==> Enabled(ss[i], steps[i])
    ensures ss[n].accepted == AllPuts(ss, steps, n) && ss[n].got == AllGets(ss, steps, n)
  {
    if n > 0 {
      RunHistory(ss, steps, n - 1);
      RunKeeps(ss, steps, n - 1);
      assert Moves(ss[n - 1], steps[n - 1], ss[n]);
      StepHistory(ss[n - 1], steps[n - 1]);
    }
  }

  /** In every interleaving, for any number of producers, the bytes got are a prefix
      of the accepted messages put together in the order of their reservations, and
      never lag them by a full ring. */
  lemma DeliveryInOrder(ss: seq<State>, steps: seq<Step>, n: nat)
    requires IsRun(ss, steps) && n <= |steps|
    ensures forall i :: 0 <= i < n ==> Enabled(ss[i], steps[i])
    ensures AllGets(ss, steps, n) <= AllPuts(ss, steps, n)
    ensures |AllPuts(ss, steps, n)| < |AllGets(ss, steps, n)| + ss[n].size
  {
    RunHistory(ss, steps, n);
    RunKeeps(ss, steps, n);
  }

  // ---- safety of single copies, and progress ---------------------------------------------------------

  lemma CopiedBytes(s: State, p: nat, k: nat, x: nat)
    requires Inv(s) && Enabled(s, CopyIn(p, k)) && |s.got| <= x < |s.accepted|
    ensures CopiedIn(s, p, k).data[Pos(x, s.size)] ==
            if x == s.producers[p].start + k then s.accepted[x] else s.data[Pos(x, s.size)]
  {
    if x == s.producers[p].start + k {
      ReservedByte(s, p, k);
    } else {
      CopyInLandsClear(s, p, k, x);
    }
  }

  /** The bytes of a reservation are those its message stands for. */
  lemma ReservedByte(s: State, p: nat, k: nat)
    requires Inv(s) && IsAt(s, p) && s.producers[p].Copying? && k < |s.producers[p].buf|
    ensures var q := s.producers[p];
            q.start + k < |s.accepted| && s.accepted[q.start + k] == q.buf[k]
  {
    var q := s.producers[p];
    assert ProducerOk(s, q);
    assert q.buf[k] == s.accepted[q.start..q.start + |q.buf|][k];
  }

  /** No byte published and not yet got is overwritten, and no byte reserved is
      overwritten but by its owner. */
  lemma CopyInIsSafe(s: State, p: nat, k: nat, x: nat)
    requires Inv(s) && Enabled(s, CopyIn(p, k)) && |s.got| <= x < |s.accepted|
    ensures |Apply(s, CopyIn(p, k)).data| == s.size
    ensures Apply(s, CopyIn(p, k)).data[Pos(x, s.size)] ==
            if x == s.producers[p].start + k then s.accepted[x] else s.data[Pos(x, s.size)]
  {
    CopyInIs(s, p, k);
    CopiedBytes(s, p, k, x);
  }

  /** A byte read is a published one, and the next the caller is due at its place. */
  lemma CopyOutIsSafe(s: State, k: nat)
    requires Inv(s) && Enabled(s, CopyOut(k))
    ensures |s.got| + k < s.published
    ensures Apply(s, CopyOut(k)).consumer.taken == s.consumer.taken[k := s.accepted[|s.got| + k]]
  {
    CopyOutIs(s, k);
  }

  /** A reservation is granted exactly when it leaves a byte of the ring unused, and a
      refused put changes nothing. */
  lemma ReserveIff(s: State, p: nat, input: Message)
    requires Inv(s) && Enabled(s, Reserve(p, input))
    ensures var s' := Apply(s, Reserve(p, input));
            if |s.accepted| - |s.got| + |input| < s.size
            then s'.accepted == s.accepted + input
                 && s'.producers == s.producers[p := Copying(input, s.writePos, |s.accepted|, {})]
            else s' == s
  {
    SizesAreDistances(s.writePos, s.readPos, s.size);
    PosDistance(|s.got|, |s.accepted| - |s.got|, s.size);
  }

  /** While anything is unpublished, some producer holds the oldest reservation; once
      its copies are done it can publish, and no other producer can. */
  lemma OldestPublishes(s: State) returns (p: nat)
    requires Inv(s) && s.published < |s.accepted|
    ensures IsAt(s, p) && s.producers[p].Copying? && s.producers[p].start == s.published
    ensures Enabled(s, Publish(p)) ==>
              Apply(s, Publish(p)).published == s.published + |s.producers[p].buf| > s.published
    ensures forall r :: 0 <= r < |s.producers| && r != p && Enabled(s, Publish(r)) ==> Apply(s, Publish(r)) == s
  {
    assert Owned(s, s.published);
    p :| Owns(s, p, s.published);
    assert ProducerOk(s, s.producers[p]);
    PublishesOldest(s, p);
    forall r | 0 <= r < |s.producers| && r != p && Enabled(s, Publish(r)) ensures Apply(s, Publish(r)) == s {
      PublishesOldest(s, r);
      LaterReservation(s, p, r);
    }
  }

  /** A lone producer never spins: its compare-and-swaps succeed. */
  lemma LoneProducerNeverSpins(s: State, p: nat)
    requires Inv(s) && |s.producers| == 1 && IsAt(s, p)
    ensures s.producers[p].LoadedRead? ==> s.writePos == s.producers[p].writeOld
    ensures s.producers[p].Copying? ==> s.finishPos == s.producers[p].writeOld
  {
    var q := s.producers[p];
    assert ProducerOk(s, q);
    if q.Copying? {
      PublishesOldest(s, p);
      if s.published < q.start {
        assert Owned(s, s.published);
        var r: nat :| Owns(s, r, s.published);
        assert false;
      }
    }
  }

  /** With nobody inside a call, the ring is the sequential one: the bytes between
      the stored positions are those accepted and not got. */
  lemma QuietContents(s: State)
    requires Inv(s) && s.consumer == Resting && forall p :: 0 <= p < |s.producers| ==> s.producers[p] == Idle
    ensures s.finishPos == s.writePos
    ensures Window(s.data, s.readPos, Distance(s.writePos, s.readPos, s.size)) == s.accepted[|s.got|..]
  {
    assert !Owned(s, s.published);
    var n := |s.accepted| - |s.got|;
    PosDistance(|s.got|, n, s.size);
    WindowIs(s.data, s.accepted, |s.got|);
  }

  lemma WindowIs(data: seq<byte>, bytes: seq<byte>, g: nat)
    requires |data| > 0 && g <= |bytes| <= g + |data|
    requires forall x: nat {:trigger bytes[x]} :: g <= x < |bytes| ==> data[Pos(x, |data|)] == bytes[x]
    ensures Window(data, Pos(g, |data|), |bytes| - g) == bytes[g..]
  {
    var w := Window(data, Pos(g, |data|), |bytes| - g);
    assert |w| == |bytes[g..]|;
    forall i: nat | i < |w| ensures w[i] == bytes[g..][i] {
      WindowAt(data, bytes, g, i);
    }
  }

  lemma WindowAt(data: seq<byte>, bytes: seq<byte>, g: nat, i: nat)
    requires |data| > 0 && g + i < |bytes| <= g + |data| && data[Pos(g + i, |data|)] == bytes[g + i]
    ensures Window(data, Pos(g, |data|), |bytes| - g)[i] == bytes[g..][i]
  {
    PosAdd(g, i, |data|);
  }

  // ---- what the calls answer ---------------------------------------------------------------------------

  /** A put gives up exactly when, at its load of the read position, what lies between
      that and the write position it loaded would fill the ring with the message; else it
      goes on with the same message.  With nothing accepted since the load of the write
      position, that is what is queued. */
  lemma LoadReadAnswers(s: State, p: nat)
    requires Inv(s) && Enabled(s, LoadRead(p))
    ensures var q := s.producers[p];
            var ahead := Distance(q.writeOld, s.readPos, s.size);
            && Apply(s, LoadRead(p)) == s.(producers := s.producers[p :=
                 if ahead + |q.buf| >= s.size then Idle else LoadedRead(q.buf, q.writeOld, q.loaded)])
            && (|s.got| <= q.loaded ==> ahead == q.loaded - |s.got|)
  {
    var q := s.producers[p];
    assert ProducerOk(s, q);
    SizesAreDistances(q.writeOld, s.readPos, s.size);
    if |s.got| <= q.loaded { PosDistance(|s.got|, q.loaded - |s.got|, s.size); }
  }

  /** A lone producer's put is granted exactly if a byte of the ring stays unused at its
      load of the read position. */
  lemma LonePutIff(s: State, p: nat)
    requires Inv(s) && |s.producers| == 1 && Enabled(s, LoadRead(p))
    ensures var q, q' := s.producers[p], Apply(s, LoadRead(p)).producers[p];
            if |s.accepted| - |s.got| + |q.buf| < s.size then q' == LoadedRead(q.buf, s.writePos, |s.accepted|)
            else q' == Idle
  {
    assert ProducerOk(s, s.producers[p]);
    LoadReadAnswers(s, p);
  }

  /** A producer loads the write position as it is. */
  lemma LoadWriteAnswers(s: State, p: nat)
    requires Inv(s) && Enabled(s, LoadWrite(p))
    ensures Apply(s, LoadWrite(p)).producers[p] ==
      LoadedWrite(s.producers[p].buf, Pos(|s.accepted|, s.size), |s.accepted|)
  {}

  /** A compare-and-swap appends the whole message, or has the put begin again with it. */
  lemma CasAnswers(s: State, p: nat)
    requires Inv(s) && Enabled(s, CasWrite(p))
    ensures var q, s' := s.producers[p], Apply(s, CasWrite(p));
            if s.writePos == q.writeOld
            then s'.accepted == s.accepted + q.buf
                 && s'.producers == s.producers[p := Copying(q.buf, s.writePos, |s.accepted|, {})]
            else s' == s.(producers := s.producers[p := Starting(q.buf)])
  {}

  /** From the start of a put to its end a producer holds the same message; it ends when
      the put is refused, or the message published. */
  lemma MessageKept(s: State, a: Step, p: nat)
    requires Inv(s) && Enabled(s, a) && IsAt(s, p) && s.producers[p] != Idle
    ensures var q, q' := s.producers[p], Apply(s, a).producers[p];
            || (q' != Idle && q'.buf == q.buf)
            || (q' == Idle && a == LoadRead(p) && Distance(q.writeOld, s.readPos, s.size) + |q.buf| >= s.size)
            || (q' == Idle && a == Publish(p) && q.start == s.published)
  {
    match a
    case LoadRead(r) => LoadReadAnswers(s, r);
    case Publish(r) => PublishesOldest(s, r);
    case _ =>
  }

  lemma PutBegins(s: State, a: Step, p: nat)
    requires Inv(s) && Enabled(s, a) && IsAt(s, p) && s.producers[p] == Idle && Apply(s, a).producers[p] != Idle
    ensures a == Start(p, Apply(s, a).producers[p].buf) || a == Reserve(p, Apply(s, a).producers[p].buf)
  {}

  /** The message a producer holds is the one its put was called with. */
  lemma {:induction false} MessageFrom(ss: seq<State>, steps: seq<Step>, j: nat, p: nat) returns (k: nat)
    requires IsRun(ss, steps) && j < |ss| && IsAt(ss[j], p) && ss[j].producers[p] != Idle
    ensures k < j && (steps[k] == Start(p, ss[j].producers[p].buf) || steps[k] == Reserve(p, ss[j].producers[p].buf))
    decreases j
  {
    var h: nat := j - 1;
    RunKeeps(ss, steps, h);
    assert Moves(ss[h], steps[h], ss[j]);
    if ss[h].producers[p] == Idle {
      PutBegins(ss[h], steps[h], p);
      k := h;
    } else {
      MessageKept(ss[h], steps[h], p);
      k := MessageFrom(ss, steps, h, p);
    }
  }

  /** A get that has loaded both positions hands out as many bytes as were asked for and
      seen published, whichever is less; with none it rests. */
  lemma LoadReadPosAnswers(s: State)
    requires Inv(s) && Enabled(s, LoadReadPos)
    ensures var c := s.consumer;
            var m := if c.len < c.seen - |s.got| then c.len else c.seen - |s.got|;
            Apply(s, LoadReadPos) == s.(consumer := if m == 0 then Resting else Reading(s.readPos, m, map[]))
  {
    UsedIs(s);
  }

  /** And at its end they are the oldest ones. */
  lemma StoreReadAnswers(s: State)
    requires Inv(s) && Enabled(s, StoreRead)
    ensures Gets(s, StoreRead) == s.accepted[|s.got|..|s.got| + s.consumer.n]
    ensures Apply(s, StoreRead).consumer == Resting && Apply(s, StoreRead).got == s.got + Gets(s, StoreRead)
  {
    TakenBytes(s);
    var m := |s.got| + s.consumer.n;
    assert (s.got + Gets(s, StoreRead))[|s.got|..] == Gets(s, StoreRead);
    assert s.accepted[..m][|s.got|..] == s.accepted[|s.got|..m];
  }

  predicate ConsumerMoves(a: Step) {
    a.Ask? || a.LoadFinishPos? || a.LoadReadPos? || a.CopyOut? || a.StoreRead?
  }

  lemma ConsumerWaits(s: State, a: Step)
    requires Inv(s) && Enabled(s, a) && !ConsumerMoves(a)
    ensures Apply(s, a).consumer == s.consumer && Apply(s, a).got == s.got
  {}

  /** Where a get in progress began: it was asked for at step k, */
  lemma {:induction false} AskedAt(ss: seq<State>, steps: seq<Step>, j: nat) returns (k: nat)
    requires IsRun(ss, steps) && j < |ss| && ss[j].consumer.Asked?
    ensures k < j && steps[k] == Ask(ss[j].consumer.len)
    decreases j
  {
    var i: nat := j - 1;
    RunKeeps(ss, steps, i);
    assert Moves(ss[i], steps[i], ss[j]);
    if steps[i].Ask? {
      k := i;
    } else {
      if !ConsumerMoves(steps[i]) { ConsumerWaits(ss[i], steps[i]); }
      k := AskedAt(ss, steps, i);
    }
  }

  /** and loaded the finish position at step i. */
  lemma {:induction false} SeenAt(ss: seq<State>, steps: seq<Step>, j: nat) returns (k: nat, i: nat)
    requires IsRun(ss, steps) && j < |ss| && ss[j].consumer.LoadedFinish?
    ensures k < i < j && steps[k] == Ask(ss[j].consumer.len) && steps[i] == LoadFinishPos
    ensures ss[j].consumer.seen == ss[i].published
    decreases j
  {
    var h: nat := j - 1;
    RunKeeps(ss, steps, h);
    assert Moves(ss[h], steps[h], ss[j]);
    if steps[h].LoadFinishPos? {
      i := h;
      k := AskedAt(ss, steps, h);
    } else {
      if !ConsumerMoves(steps[h]) { ConsumerWaits(ss[h], steps[h]); }
      k, i := SeenAt(ss, steps, h);
    }
  }

  function Lesser(a: nat, b: int): int { if a < b then a else b }

  lemma {:induction false} ReadingAt(ss: seq<State>, steps: seq<Step>, j: nat) returns (k: nat, i: nat)
    requires IsRun(ss, steps) && j < |ss| && ss[j].consumer.Reading?
    ensures k < i < j && steps[k].Ask? && steps[i] == LoadFinishPos
    ensures ss[j].consumer.n == Lesser(steps[k].len, ss[i].published - |ss[j].got|)
    decreases j
  {
    var h: nat := j - 1;
    RunKeeps(ss, steps, h);
    assert Moves(ss[h], steps[h], ss[j]);
    if steps[h].LoadReadPos? {
      LoadReadPosAnswers(ss[h]);
      k, i := SeenAt(ss, steps, h);
    } else {
      if !ConsumerMoves(steps[h]) { ConsumerWaits(ss[h], steps[h]); }
      k, i := ReadingAt(ss, steps, h);
    }
  }

  /** A get that completes returns the oldest bytes: as many as it asked for, or as were
      published when it loaded the finish position, whichever is less. */
  lemma GetReturns(ss: seq<State>, steps: seq<Step>, j: nat) returns (k: nat, i: nat)
    requires IsRun(ss, steps) && j < |steps| && steps[j] == StoreRead
    ensures k < i < j && steps[k].Ask? && steps[i] == LoadFinishPos && Inv(ss[j]) && Enabled(ss[j], StoreRead)
    ensures var g := |ss[j].got|;
            var m := Lesser(steps[k].len, ss[i].published - g);
            0 < m && g + m <= |ss[j].accepted| && Gets(ss[j], StoreRead) == ss[j].accepted[g..g + m]
  {
    RunKeeps(ss, steps, j);
    assert Moves(ss[j], steps[j], ss[j + 1]);
    k, i := ReadingAt(ss, steps, j);
    StoreReadAnswers(ss[j]);
    SomeAsked(ss, steps, j);
  }

  /** A get that returns nothing asked for nothing or saw nothing published. */
  lemma GetReturnsNothing(ss: seq<State>, steps: seq<Step>, j: nat) returns (k: nat, i: nat)
    requires IsRun(ss, steps) && j < |steps| && steps[j] == LoadReadPos && ss[j + 1].consumer == Resting
    ensures k < i < j && steps[k].Ask? && steps[i] == LoadFinishPos
    ensures steps[k].len == 0 || ss[i].published == |ss[j].got|
  {
    RunKeeps(ss, steps, j);
    assert Moves(ss[j], steps[j], ss[j + 1]);
    k, i := SeenAt(ss, steps, j);
    LoadReadPosAnswers(ss[j]);
  }

  lemma {:induction false} SomeAsked(ss: seq<State>, steps: seq<Step>, j: nat)
    requires IsRun(ss, steps) && j < |ss| && ss[j].consumer.Reading?
    ensures ss[j].consumer.n > 0
    decreases j
  {
    var h: nat := j - 1;
    RunKeeps(ss, steps, h);
    assert Moves(ss[h], steps[h], ss[j]);
    if steps[h].LoadReadPos? {
      LoadReadPosAnswers(ss[h]);
    } else {
      if !ConsumerMoves(steps[h]) { ConsumerWaits(ss[h], steps[h]); }
      SomeAsked(ss, steps, h);
    }
  }

  // ---- a lap -----------------------------------------------------------------------------------------

  /** One step more. */
  lemma Go(ss: seq<State>, steps: seq<Step>, a: Step) returns (ss': seq<State>, steps': seq<Step>, s': State)
    requires IsRun(ss, steps) && Enabled(ss[|steps|], a) && NoLap(ss[|steps|], a)
    ensures IsRun(ss', steps') && Inv(ss[|steps|]) && s' == ss'[|steps'|] == Apply(ss[|steps|], a) && Inv(s')
  {
    RunKeeps(ss, steps, |steps|);
    StepKeeps(ss[|steps|], a);
    s' := Apply(ss[|steps|], a);
    ss', steps' := ss + [s'], steps + [a];
    forall i | 0 <= i < |steps'| && Inv(ss'[i]) ensures Moves(ss'[i], steps'[i], ss'[i + 1]) {
      if i < |steps| { assert Moves(ss[i], steps[i], ss[i + 1]); }
    }
  }

  /** s is s0 with a put of producer p under way. */
  ghost predicate Putting(s: State, s0: State, p: nat, input: Message, copied: set<nat>)
    requires IsAt(s0, p)
  {
    && Inv(s) && s.size == s0.size && s.consumer == s0.consumer && s.got == s0.got && s.published == s0.published
    && s.accepted == s0.accepted + input
    && s.producers == s0.producers[p := Copying(input, s0.writePos, |s0.accepted|, copied)]
  }

  lemma PutStarts(s: State, p: nat, input: Message)
    requires Inv(s) && Enabled(s, Reserve(p, input)) && |s.accepted| - |s.got| + |input| < s.size
    requires Inv(Apply(s, Reserve(p, input)))
    ensures Putting(Apply(s, Reserve(p, input)), s, p, input, {})
  {
    ReserveIff(s, p, input);
  }

  lemma PutCopies(s: State, s0: State, p: nat, input: Message, copied: set<nat>, k: nat)
    requires IsAt(s0, p) && Putting(s, s0, p, input, copied) && k < |input| && k !in copied
    requires Inv(Apply(s, CopyIn(p, k)))
    ensures Putting(Apply(s, CopyIn(p, k)), s0, p, input, copied + {k})
  {}

  lemma PutEnds(s: State, s0: State, p: nat, input: Message, copied: set<nat>)
    requires IsAt(s0, p) && Putting(s, s0, p, input, copied) && Enabled(s, Publish(p))
    requires s0.producers[p] == Idle && s0.published == |s0.accepted|
    ensures var s' := Apply(s, Publish(p));
            && s'.size == s0.size && s'.producers == s0.producers && s'.consumer == s0.consumer
            && s'.accepted == s0.accepted + input && s'.published == |s'.accepted| && s'.got == s0.got
  {
    PublishesOldest(s, p);
  }

  /** Producer p puts two bytes without a break. */
  lemma PutTwo(ss: seq<State>, steps: seq<Step>, p: nat, input: Message)
    returns (ss': seq<State>, steps': seq<Step>, s': State)
    requires IsRun(ss, steps) && |input| == 2
    requires var s := ss[|steps|];
             && Inv(s) && IsAt(s, p) && s.producers[p] == Idle && s.published == |s.accepted|
             && |s.accepted| - |s.got| + 2 < s.size
    ensures IsRun(ss', steps') && s' == ss'[|steps'|] && Inv(s')
    ensures var s := ss[|steps|];
            && s'.size == s.size && s'.producers == s.producers && s'.consumer == s.consumer
            && s'.accepted == s.accepted + input && s'.published == |s'.accepted| && s'.got == s.got
  {
    var s := ss[|steps|];
    var none: set<nat> := {};
    assert none + {0} == {0};
    ss', steps', s' := Begin(ss, steps, p, input);
    ss', steps', s' := Copy(ss', steps', s, p, input, none, 0);
    ss', steps', s' := Copy(ss', steps', s, p, input, {0}, 1);
    PutEnds(s', s, p, input, {0} + {1});
    ss', steps', s' := Go(ss', steps', Publish(p));
  }

  lemma Begin(ss: seq<State>, steps: seq<Step>, p: nat, input: Message)
    returns (ss': seq<State>, steps': seq<Step>, s': State)
    requires IsRun(ss, steps) && Enabled(ss[|steps|], Reserve(p, input))
    requires |ss[|steps|].accepted| - |ss[|steps|].got| + |input| < ss[|steps|].size
    ensures IsRun(ss', steps') && s' == ss'[|steps'|] && Putting(s', ss[|steps|], p, input, {})
  {
    ss', steps', s' := Go(ss, steps, Reserve(p, input));
    PutStarts(ss[|steps|], p, input);
  }

  lemma Copy(ss: seq<State>, steps: seq<Step>, s0: State, p: nat, input: Message, copied: set<nat>, k: nat)
    returns (ss': seq<State>, steps': seq<Step>, s': State)
    requires IsRun(ss, steps) && IsAt(s0, p) && Putting(ss[|steps|], s0, p, input, copied)
    requires k < |input| && k !in copied
    ensures IsRun(ss', steps') && s' == ss'[|steps'|] && Putting(s', s0, p, input, copied + {k})
  {
    ss', steps', s' := Go(ss, steps, CopyIn(p, k));
    PutCopies(ss[|steps|], s0, p, input, copied, k);
  }

  /** s is s0 with a get of n bytes under way, of which some are taken. */
  ghost predicate Getting(s: State, s0: State, n: uint32, taken: set<nat>) {
    && Inv(s) && s.size == s0.size && s.producers == s0.producers && s.got == s0.got
    && s.accepted == s0.accepted && s.published == s0.published
    && s.consumer.Reading? && s.consumer.n == n && s.consumer.taken.Keys == taken
  }

  lemma GetStarts(ss: seq<State>, steps: seq<Step>, len: uint32)
    returns (ss': seq<State>, steps': seq<Step>, s': State)
    requires IsRun(ss, steps) && len > 0
    requires var s := ss[|steps|]; Inv(s) && s.consumer == Resting && s.published - |s.got| >= len
    ensures IsRun(ss', steps') && s' == ss'[|steps'|] && Getting(s', ss[|steps|], len, {})
  {
    var s := ss[|steps|];
    ss', steps', s' := Go(ss, steps, Ask(len));
    ss', steps', s' := Go(ss', steps', LoadFinishPos);
    SizesAreDistances(s.finishPos, s.readPos, s.size);
    PosDistance(|s.got|, s.published - |s.got|, s.size);
    ss', steps', s' := Go(ss', steps', LoadReadPos);
  }

  lemma Take(ss: seq<State>, steps: seq<Step>, s0: State, n: uint32, taken: set<nat>, k: nat)
    returns (ss': seq<State>, steps': seq<Step>, s': State)
    requires IsRun(ss, steps) && Getting(ss[|steps|], s0, n, taken) && k < n && k !in taken
    ensures IsRun(ss', steps') && s' == ss'[|steps'|] && Getting(s', s0, n, taken + {k})
  {
    ss', steps', s' := Go(ss, steps, CopyOut(k));
  }

  /** The consumer gets two bytes without a break. */
  lemma GetTwo(ss: seq<State>, steps: seq<Step>) returns (ss': seq<State>, steps': seq<Step>, s': State)
    requires IsRun(ss, steps)
    requires var s := ss[|steps|]; Inv(s) && s.consumer == Resting && s.published - |s.got| >= 2
    ensures IsRun(ss', steps') && s' == ss'[|steps'|] && Inv(s')
    ensures var s := ss[|steps|];
            && s'.size == s.size && s'.producers == s.producers && s'.consumer == Resting
            && s'.accepted == s.accepted && s'.published == s.published && |s'.got| == |s.got| + 2
  {
    var s := ss[|steps|];
    ss', steps', s' := GetStarts(ss, steps, 2);
    ss', steps', s' := Take(ss', steps', s, 2, {}, 0);
    ss', steps', s' := Take(ss', steps', s, 2, {0}, 1);
    ss', steps', s' := Go(ss', steps', StoreRead);
  }

  /** Producer 0 loads both positions of an empty ring of four bytes. */
  lemma LapBegins(buf: Message) returns (ss: seq<State>, steps: seq<Step>, s: State)
    requires |buf| == 3
    ensures IsRun(ss, steps) && s == ss[|steps|] && Inv(s) && s.size == 4 && s.consumer == Resting
    ensures s.producers == [LoadedRead(buf, 0, 0), Idle] && s.accepted == s.got == [] && s.published == 0
  {
    assert Pow2(2) == 4;
    s := State(4, 0, 0, 0, [0, 0, 0, 0], [Idle, Idle], Resting, [], 0, []);
    ss, steps := [s], [];
    InitialInv(s);
    ss, steps, s := Go(ss, steps, Start(0, buf));
    ss, steps, s := Go(ss, steps, LoadWrite(0));
    ss, steps, s := Go(ss, steps, LoadRead(0));
  }

  /** A lap: producer 0 has loaded both positions; producer 1 puts two bytes, the
      consumer gets them, and producer 1 puts two more.  The write position is what it
      was, so the compare-and-swap of producer 0 succeeds, and the copy that follows it
      puts a byte of its own over one not yet got. */
  lemma LapOverwrites() returns (ss: seq<State>, steps: seq<Step>, s: State, x: nat, k: nat)
    ensures IsRun(ss, steps) && s == ss[|steps|] && Inv(s) && |s.producers| == 2
    ensures Enabled(s, CasWrite(0)) && !NoLap(s, CasWrite(0)) && s.writePos == s.producers[0].writeOld
    ensures |s.got| <= x < s.published && k < |s.producers[0].buf|
    ensures var q := s.producers[0];
            q.writeOld < s.size && Place(q.writeOld, k, |q.buf|, s.size) == Pos(x, s.size) && q.buf[k] != s.accepted[x]
  {
    ss, steps, s := LapBegins([9, 9, 9]);
    ss, steps, s := PutTwo(ss, steps, 1, [1, 2]);
    ss, steps, s := GetTwo(ss, steps);
    ss, steps, s := PutTwo(ss, steps, 1, [3, 4]);
    x, k := 2, 2;
    assert s.accepted == [1, 2, 3, 4];
    PlaceIs(0, 2, 3, 4);
  }
}
