/** Signatures, buckets and the displacement search of tools/cuckoohash.c, as
    functions of the slots.  Bucket b owns the four slots 4*b .. 4*b+3. */
module CuckooSearch {
  import opened Bits

  /** One entry of a bucket: its two signature halves and its key index. */
  datatype Slot = Slot(current: uint32, alt: uint32, keyIdx: uint32)

  datatype Option<+T> = None | Some(value: T)

  /** `sig == NULL_SIGNATURE`: the key index of an empty slot is meaningless. */
  predicate Empty(s: Slot) { s.current == 0 && s.alt == 0 }

  function Cleared(s: Slot): Slot { s.(current := 0, alt := 0) }

  /** The entry as it is written into its alternative bucket. */
  function Moved(s: Slot): Slot { Slot(s.alt, s.current, s.keyIdx) }

  function Secondary(primary: uint32): uint32 {
    var mix := Mix(Shr(primary, 12));
    XorFits(primary, mix);
    Xor(primary, mix)
  }

  function Mix(tag: uint32): uint32 {
    Mul32(Add32(tag, 1), 0x5bd1e995)
  }

  lemma XorFits(x: uint32, y: uint32)
    ensures Xor(x, y) < 0x1_0000_0000
  {
    Pow2At32();
    XorBound(x, y, 32);
  }

  lemma TagIs(h: uint32)
    ensures Shr(h, 12) == h / 4096
  {
    assert Pow2(12) == 4096;
    ShrDivides(h, 12);
  }

  lemma SecondaryIs(h: uint32, tag: uint32)
    requires tag == h / 4096
    ensures Secondary(h) == Xor(h, Mix(tag))
  {
    TagIs(h);
  }

  lemma MixIs(tag: uint32)
    requires tag + 1 < 0x1_0000_0000
    ensures Mix(tag) == ((tag + 1) * 0x5bd1e995) % 0x1_0000_0000
  {}

  function BucketOf(h: uint32, nb: nat): (b: nat)
    requires nb > 0
    ensures b < nb
  {
    And(h, nb - 1)
  }

  /** Slot i of bucket b. */
  function At(b: nat, i: nat): nat { 4 * b + i }

  // ---- hash_secondary never fixes its argument ---------------------------------

  /** The multiplier is odd, hence invertible modulo 2^32:
      0x5bd1e995 * 0xe59b19bd == 1 + 0x1_0000_0000 * 0x525a6746. */
  lemma OddMultiple(t: nat)
    ensures (t * 0x5bd1e995) % 0x1_0000_0000 == 0 ==> t % 0x1_0000_0000 == 0
  {
    if (t * 0x5bd1e995) % 0x1_0000_0000 == 0 {
      var q := (t * 0x5bd1e995) / 0x1_0000_0000;
      assert t == 0x1_0000_0000 * (q * 0xe59b19bd - t * 0x525a6746);
    }
  }

  lemma SecondaryDiffers(primary: uint32)
    ensures Secondary(primary) != primary
  {
    var tag := primary / 4096;
    SecondaryIs(primary, tag);
    MixIs(tag);
    OddMultiple(tag + 1);
    if Secondary(primary) == primary {
      XorFixed(primary, Mix(tag));
    }
  }

  /** The two hashes differ by the multiple of the mixing constant that the top 20 bits
      give. */
  lemma SecondaryMixes(h: uint32)
    ensures Xor(Secondary(h), h) == ((h / 4096 + 1) * 0x5bd1e995) % 0x1_0000_0000
  {
    var tag := h / 4096;
    SecondaryIs(h, tag);
    MixIs(tag);
    XorComm(h, Mix(tag));
    XorTwice(Mix(tag), h);
  }

  /** With a power of two of buckets, a hash has the bucket of its remainder. */
  lemma BucketIs(h: uint32, nb: nat)
    requires IsPow2(nb)
    ensures BucketOf(h, nb) == h % nb
  {
    var k :| Pow2(k) == nb;
    AndMask(h, k);
  }

  // ---- the search ----------------------------------------------------------------

  predicate Sized(slots: seq<Slot>, nb: nat) {
    nb > 0 && |slots| == 4 * nb
  }

  /** The bucket an entry would move to. */
  function AltBucket(slots: seq<Slot>, nb: nat, p: nat): (b: nat)
    requires nb > 0 && p < |slots|
    ensures b < nb
  {
    BucketOf(slots[p].alt, nb)
  }

  /** The first empty index of bucket b from j on, or 4. */
  function FirstEmpty(slots: seq<Slot>, b: nat, j: nat): (r: nat)
    requires At(b, 3) < |slots| && j <= 4
    ensures j <= r <= 4
    ensures r < 4 ==> Empty(slots[At(b, r)])
    ensures forall i: nat :: j <= i < r ==> !Empty(slots[At(b, i)])
    decreases 4 - j
  {
    if j == 4 || Empty(slots[At(b, j)]) then j else FirstEmpty(slots, b, j + 1)
  }

  predicate Full(slots: seq<Slot>, b: nat)
    requires At(b, 3) < |slots|
  {
    forall i: nat :: i < 4 ==> !Empty(slots[At(b, i)])
  }

  /** The first index of bucket b from i on whose alternative bucket has room, or 4. */
  function FirstMovable(slots: seq<Slot>, nb: nat, b: nat, i: nat): (r: nat)
    requires Sized(slots, nb) && b < nb && i <= 4
    ensures i <= r <= 4
    ensures r < 4 ==> FirstEmpty(slots, AltBucket(slots, nb, At(b, r)), 0) < 4
    ensures forall k: nat :: i <= k < r ==> Full(slots, AltBucket(slots, nb, At(b, k)))
    decreases 4 - i
  {
    if i == 4 || FirstEmpty(slots, AltBucket(slots, nb, At(b, i)), 0) < 4 then i
    else FirstMovable(slots, nb, b, i + 1)
  }

  /** The first index of bucket b from i on that is not being pushed, or 4. */
  function FirstUnflagged(flags: seq<bool>, b: nat, i: nat): (r: nat)
    requires At(b, 3) < |flags| && i <= 4
    ensures i <= r <= 4
    ensures r < 4 ==> !flags[At(b, r)]
    ensures forall k: nat :: i <= k < r ==> flags[At(b, k)]
    decreases 4 - i
  {
    if i == 4 || !flags[At(b, i)] then i else FirstUnflagged(flags, b, i + 1)
  }

  function Unflagged(flags: seq<bool>): set<nat> {
    set p: nat | p < |flags| && !flags[p]
  }

  lemma FlaggingShrinks(flags: seq<bool>, p: nat)
    requires p < |flags| && !flags[p]
    ensures Unflagged(flags[p := true]) < Unflagged(flags)
    ensures |Unflagged(flags[p := true])| == |Unflagged(flags)| - 1
  {
    assert Unflagged(flags[p := true]) == Unflagged(flags) - {p};
  }

  /** The slots the search from a full bucket b visits, ending in the empty slot
      it finds; None when it reaches a bucket whose entries are all being pushed. */
  function SearchPath(slots: seq<Slot>, flags: seq<bool>, nb: nat, b: nat): Option<seq<nat>>
    requires Sized(slots, nb) && |flags| == |slots| && b < nb
    decreases Unflagged(flags)
  {
    var m := FirstMovable(slots, nb, b, 0);
    if m < 4 then
      var next := AltBucket(slots, nb, At(b, m));
      Some([At(b, m), At(next, FirstEmpty(slots, next, 0))])
    else
      var i := FirstUnflagged(flags, b, 0);
      if i == 4 then None
      else
        var p := At(b, i);
        FlaggingShrinks(flags, p);
        match SearchPath(slots, flags[p := true], nb, AltBucket(slots, nb, p))
        case None => None
        case Some(rest) => Some([p] + rest)
  }

  predicate Within(path: seq<nat>, n: nat) {
    forall i :: 0 <= i < |path| ==> path[i] < n
  }

  /** Every entry of the path moves one place along it, the last one first; the
      first slot of the path keeps its (now stale) entry. */
  function Displace(slots: seq<Slot>, path: seq<nat>): (r: seq<Slot>)
    requires Within(path, |slots|)
    ensures |r| == |slots|
  {
    if |path| < 2 then slots
    else
      var inner := Displace(slots, path[1..]);
      inner[path[1] := Moved(inner[path[0]])]
  }

  /** `s` is what a search from bucket b, returning `ret`, makes of the slots:
      nothing if it fails, else the path displaced, its first slot being ret. */
  ghost predicate Pushes(slots: seq<Slot>, flags: seq<bool>, nb: nat, b: nat, s: seq<Slot>, ret: int)
    requires Sized(slots, nb) && |flags| == |slots| && b < nb
  {
    match SearchPath(slots, flags, nb, b)
    case None => ret < 0 && s == slots
    case Some(path) =>
      && 0 <= ret < 4 && |path| > 0 && path[0] == At(b, ret)
      && Within(path, |slots|) && s == Displace(slots, path)
  }

  // ---- what the search finds -----------------------------------------------------

  /** No entry of bucket b can be moved to a bucket with room. */
  ghost predicate Exhausted(slots: seq<Slot>, nb: nat, b: nat)
    requires Sized(slots, nb) && b < nb
  {
    Full(slots, b) && forall i: nat :: i < 4 ==> Full(slots, AltBucket(slots, nb, At(b, i)))
  }

  /** Every entry being pushed by an outer call lies in an exhausted bucket: this
      is what keeps inner calls from touching it. */
  ghost predicate FlagsExhausted(slots: seq<Slot>, flags: seq<bool>, nb: nat) {
    Sized(slots, nb) && |flags| == |slots| &&
    forall p: nat :: p < |flags| && flags[p] ==> Exhausted(slots, nb, p / 4)
  }

  ghost predicate Distinct(path: seq<nat>) {
    forall i, j :: 0 <= i < j < |path| ==> path[i] != path[j]
  }

  /** A displacement path: distinct occupied slots, each in the alternative
      bucket of the one before, ending in an empty slot. */
  ghost predicate PathFrom(slots: seq<Slot>, nb: nat, b: nat, path: seq<nat>) {
    && Sized(slots, nb) && |path| >= 1 && Distinct(path)
    && Within(path, |slots|)
    && path[0] / 4 == b
    && Empty(slots[path[|path| - 1]])
    && (forall i :: 0 <= i < |path| - 1 ==> !Empty(slots[path[i]]))
    && (forall i :: 0 <= i < |path| - 1 ==> path[i + 1] / 4 == AltBucket(slots, nb, path[i]))
  }

  /** None of the slots on the path, the final empty one aside, was flagged. */
  ghost predicate AvoidsFlags(flags: seq<bool>, path: seq<nat>) {
    forall i :: 0 <= i < |path| - 1 ==> path[i] < |flags| && !flags[path[i]]
  }

  /** What a search from bucket b may return. */
  ghost predicate Found(slots: seq<Slot>, flags: seq<bool>, nb: nat, b: nat, r: Option<seq<nat>>) {
    r.Some? ==> |r.value| >= 2 && PathFrom(slots, nb, b, r.value) && AvoidsFlags(flags, r.value)
  }

  lemma {:induction false} SearchPathCorrect(slots: seq<Slot>, flags: seq<bool>, nb: nat, b: nat)
    requires FlagsExhausted(slots, flags, nb) && b < nb && Full(slots, b)
    ensures Found(slots, flags, nb, b, SearchPath(slots, flags, nb, b))
    decreases Unflagged(flags)
  {
    var i := FirstUnflagged(flags, b, 0);
    if FirstMovable(slots, nb, b, 0) < 4 {
      LastMoveCorrect(slots, flags, nb, b);
    } else if i < 4 {
      FlaggingShrinks(flags, At(b, i));
      FlaggingExhausted(slots, flags, nb, b, i);
      SearchPathCorrect(slots, flags[At(b, i) := true], nb, AltBucket(slots, nb, At(b, i)));
      SearchExtends(slots, flags, nb, b, i);
    }
  }

  lemma SearchExtends(slots: seq<Slot>, flags: seq<bool>, nb: nat, b: nat, i: nat)
    requires FlagsExhausted(slots, flags, nb) && b < nb && Full(slots, b)
    requires FirstMovable(slots, nb, b, 0) == 4 && i == FirstUnflagged(flags, b, 0) < 4
    requires var next := AltBucket(slots, nb, At(b, i));
             Found(slots, flags[At(b, i) := true], nb, next, SearchPath(slots, flags[At(b, i) := true], nb, next))
    ensures Found(slots, flags, nb, b, SearchPath(slots, flags, nb, b))
  {
    var p := At(b, i);
    var r := SearchPath(slots, flags[p := true], nb, AltBucket(slots, nb, p));
    FlaggingShrinks(flags, p);
    if r.Some? {
      PathExtends(slots, flags, nb, p, r.value);
      assert SearchPath(slots, flags, nb, b).value == [p] + r.value;
    }
  }

  lemma FlaggingExhausted(slots: seq<Slot>, flags: seq<bool>, nb: nat, b: nat, i: nat)
    requires FlagsExhausted(slots, flags, nb) && b < nb && i < 4 && Full(slots, b)
    requires FirstMovable(slots, nb, b, 0) == 4
    ensures FlagsExhausted(slots, flags[At(b, i) := true], nb)
    ensures Full(slots, AltBucket(slots, nb, At(b, i)))
  {
    var p := At(b, i);
    assert p / 4 == b && Exhausted(slots, nb, b);
    forall q: nat | q < |flags| && flags[p := true][q] ensures Exhausted(slots, nb, q / 4) {
      if q != p { assert flags[q]; }
    }
  }

  lemma LastMoveCorrect(slots: seq<Slot>, flags: seq<bool>, nb: nat, b: nat)
    requires FlagsExhausted(slots, flags, nb) && b < nb && Full(slots, b)
    requires FirstMovable(slots, nb, b, 0) < 4
    ensures var path := SearchPath(slots, flags, nb, b).value;
            |path| == 2 && PathFrom(slots, nb, b, path) && AvoidsFlags(flags, path)
  {}

  lemma PathExtends(slots: seq<Slot>, flags: seq<bool>, nb: nat, p: nat, rest: seq<nat>)
    requires Sized(slots, nb) && |flags| == |slots| && p < |slots| && !Empty(slots[p]) && !flags[p]
    requires PathFrom(slots, nb, AltBucket(slots, nb, p), rest) && AvoidsFlags(flags[p := true], rest)
    ensures PathFrom(slots, nb, p / 4, [p] + rest) && AvoidsFlags(flags, [p] + rest)
  {}

  // ---- what a displacement does ----------------------------------------------------

  /** Along a path of distinct slots, slot i+1 receives what slot i held and all
      slots off the path, as well as its first, are untouched. */
  lemma {:induction false} DisplaceShifts(slots: seq<Slot>, path: seq<nat>)
    requires Distinct(path) && Within(path, |slots|)
    ensures forall i :: 0 <= i < |path| - 1 ==> Displace(slots, path)[path[i + 1]] == Moved(slots[path[i]])
    ensures forall p :: 0 <= p < |slots| && p !in path ==> Displace(slots, path)[p] == slots[p]
    ensures |path| > 0 ==> Displace(slots, path)[path[0]] == slots[path[0]]
  {
    if |path| >= 2 {
      var rest := path[1..];
      assert Distinct(rest);
      DisplaceShifts(slots, rest);
      assert path[0] !in rest;
      var r := Displace(slots, path);
      forall i | 0 <= i < |path| - 1 ensures r[path[i + 1]] == Moved(slots[path[i]]) {
        if i > 0 { assert rest[i] == path[i + 1] && rest[i - 1] == path[i]; }
      }
    }
  }

  /** A move to room one step away. */
  lemma PushesDirectly(slots: seq<Slot>, flags: seq<bool>, nb: nat, b: nat, i: nat, q: nat)
    requires FlagsExhausted(slots, flags, nb) && b < nb && Full(slots, b)
    requires i < 4 && i == FirstMovable(slots, nb, b, 0)
    requires var next := AltBucket(slots, nb, At(b, i)); q == At(next, FirstEmpty(slots, next, 0))
    ensures q < |slots| && q != At(b, i) && Pushes(slots, flags, nb, b, slots[q := Moved(slots[At(b, i)])], i)
  {}

  /** A move to the slot an inner search, made with slot p flagged, has freed. */
  lemma PushesDeeper(slots: seq<Slot>, flags: seq<bool>, nb: nat, b: nat, i: nat, next: nat, s: seq<Slot>, ret: int)
    requires FlagsExhausted(slots, flags, nb) && b < nb && Full(slots, b)
    requires FirstMovable(slots, nb, b, 0) == 4 && i == FirstUnflagged(flags, b, 0) && i < 4
    requires next == AltBucket(slots, nb, At(b, i))
    requires Pushes(slots, flags[At(b, i) := true], nb, next, s, ret)
    ensures |s| == |slots|
    ensures if ret < 0 then Pushes(slots, flags, nb, b, s, ret)
            else At(next, ret) < |s| && At(next, ret) != At(b, i)
                 && Pushes(slots, flags, nb, b, s[At(next, ret) := Moved(s[At(b, i)])], i)
  {
    var p := At(b, i);
    FlaggingShrinks(flags, p);
    var inner := SearchPath(slots, flags[p := true], nb, next);
    if inner.Some? {
      InnerPath(slots, flags, nb, b, i, next, inner.value);
      DisplaceOneMore(slots, p, inner.value);
    }
  }

  /** What the inner search finds, entered by slot p, is what the outer one finds. */
  lemma InnerPath(slots: seq<Slot>, flags: seq<bool>, nb: nat, b: nat, i: nat, next: nat, rest: seq<nat>)
    requires FlagsExhausted(slots, flags, nb) && b < nb && Full(slots, b)
    requires FirstMovable(slots, nb, b, 0) == 4 && i == FirstUnflagged(flags, b, 0) && i < 4
    requires next == AltBucket(slots, nb, At(b, i))
    requires SearchPath(slots, flags[At(b, i) := true], nb, next) == Some(rest)
    ensures SearchPath(slots, flags, nb, b) == Some([At(b, i)] + rest)
    ensures |rest| > 0 && Distinct([At(b, i)] + rest) && Within([At(b, i)] + rest, |slots|)
  {
    var p := At(b, i);
    FlaggingShrinks(flags, p);
    FlaggingExhausted(slots, flags, nb, b, i);
    SearchPathCorrect(slots, flags[p := true], nb, next);
    PathExtends(slots, flags, nb, p, rest);
  }

  /** Displacing along a longer path moves one more entry, not yet touched. */
  lemma DisplaceOneMore(slots: seq<Slot>, p: nat, rest: seq<nat>)
    requires p < |slots| && |rest| > 0 && Distinct([p] + rest) && Within([p] + rest, |slots|)
    ensures Within(rest, |slots|) && p != rest[0]
    ensures Displace(slots, [p] + rest) == Displace(slots, rest)[rest[0] := Moved(Displace(slots, rest)[p])]
  {
    var path := [p] + rest;
    assert path[1..] == rest && path[1] == rest[0];
    forall k | 0 <= k < |rest| ensures rest[k] < |slots| {
      assert path[k + 1] == rest[k];
    }
  }
}
