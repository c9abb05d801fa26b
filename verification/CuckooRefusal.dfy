/** When a cuckoo table refuses a key, said of its slots; and tables that do. */
module CuckooRefusal {
  import opened Bits
  import opened CuckooSearch
  import opened CuckooModel
  import opened CuckooOps
  import opened CuckooRuns

  // ---- the walk of the search ------------------------------------------------------------

  /** How often w contains b. */
  function Visits(w: seq<nat>, b: nat): nat {
    if w == [] then 0 else Visits(w[..|w| - 1], b) + if w[|w| - 1] == b then 1 else 0
  }

  /** A walk over buckets that leaves a bucket by its first entry the first time, by its
      second the second time, and so on, at most four times. */
  ghost predicate IsWalk(slots: seq<Slot>, nb: nat, w: seq<nat>)
    requires Sized(slots, nb)
  {
    && |w| > 0 && (forall i :: 0 <= i < |w| ==> w[i] < nb)
    && forall i :: 0 <= i < |w| - 1 ==> Leaves(slots, nb, w, i)
  }

  ghost predicate Leaves(slots: seq<Slot>, nb: nat, w: seq<nat>, i: nat)
    requires Sized(slots, nb) && i < |w| - 1 && w[i] < nb
  {
    var turn := Visits(w[..i], w[i]);
    turn < 4 && w[i + 1] == AltBucket(slots, nb, At(w[i], turn))
  }

  /** Some entry of bucket b has room in its other bucket. */
  ghost predicate RoomBeside(slots: seq<Slot>, nb: nat, b: nat)
    requires Sized(slots, nb) && b < nb
  {
    exists i: nat :: i < 4 && !Full(slots, AltBucket(slots, nb, At(b, i)))
  }

  /** The walk from bucket b gets to a bucket with room beside it. */
  ghost predicate WalksToRoom(slots: seq<Slot>, nb: nat, b: nat)
    requires Sized(slots, nb) && b < nb
  {
    exists w :: IsWalk(slots, nb, w) && w[0] == b && RoomBeside(slots, nb, w[|w| - 1])
  }

  lemma MovableIff(slots: seq<Slot>, nb: nat, b: nat)
    requires Sized(slots, nb) && b < nb
    ensures FirstMovable(slots, nb, b, 0) < 4 <==> RoomBeside(slots, nb, b)
  {
    var m := FirstMovable(slots, nb, b, 0);
    if m < 4 {
      var c := AltBucket(slots, nb, At(b, m));
      assert Empty(slots[At(c, FirstEmpty(slots, c, 0))]);
    }
  }

  /** The flags of the search are those of the entries the walk has left by. */
  ghost predicate FlagsOf(flags: seq<bool>, nb: nat, w: seq<nat>)
    requires |flags| == 4 * nb
  {
    forall b: nat, i: nat :: b < nb && i < 4 ==> FlagIs(flags, w, b, i)
  }

  ghost predicate FlagIs(flags: seq<bool>, w: seq<nat>, b: nat, i: nat)
    requires At(b, i) < |flags|
  {
    flags[At(b, i)] <==> i < Visits(w, b)
  }

  lemma FlagsStep(flags: seq<bool>, nb: nat, w: seq<nat>, b: nat)
    requires |flags| == 4 * nb && b < nb && FlagsOf(flags, nb, w) && Visits(w, b) < 4
    ensures FlagsOf(flags[At(b, Visits(w, b)) := true], nb, w + [b])
  {
    var flags' := flags[At(b, Visits(w, b)) := true];
    assert (w + [b])[..|w|] == w;
    forall c: nat, i: nat | c < nb && i < 4 ensures FlagIs(flags', w + [b], c, i) {
      assert FlagIs(flags, w, c, i);
    }
  }

  lemma UnflaggedIs(flags: seq<bool>, nb: nat, w: seq<nat>, b: nat)
    requires |flags| == 4 * nb && b < nb && FlagsOf(flags, nb, w)
    ensures FirstUnflagged(flags, b, 0) == if Visits(w, b) < 4 then Visits(w, b) else 4
  {
    var i := FirstUnflagged(flags, b, 0);
    forall k: nat | k < 4 ensures flags[At(b, k)] <==> k < Visits(w, b) {
      assert FlagIs(flags, w, b, k);
    }
    assert Visits(w, b) < 4 ==> !flags[At(b, Visits(w, b))];
  }

  /** With no room beside it, the search of a bucket is that of the next on its walk. */
  lemma SearchStep(slots: seq<Slot>, flags: seq<bool>, nb: nat, w: seq<nat>, b: nat) returns (flags': seq<bool>)
    requires Sized(slots, nb) && |flags| == |slots| && b < nb && FlagsOf(flags, nb, w) && !RoomBeside(slots, nb, b)
    ensures Visits(w, b) >= 4 ==> SearchPath(slots, flags, nb, b) == None
    ensures Visits(w, b) < 4 ==>
              && flags' == flags[At(b, Visits(w, b)) := true]
              && Unflagged(flags') < Unflagged(flags) && FlagsOf(flags', nb, w + [b])
              && (SearchPath(slots, flags, nb, b).Some?
                  <==> SearchPath(slots, flags', nb, AltBucket(slots, nb, At(b, Visits(w, b)))).Some?)
  {
    flags' := flags;
    MovableIff(slots, nb, b);
    UnflaggedIs(flags, nb, w, b);
    if Visits(w, b) < 4 {
      flags' := flags[At(b, Visits(w, b)) := true];
      FlaggingShrinks(flags, At(b, Visits(w, b)));
      FlagsStep(flags, nb, w, b);
    }
  }

  /** A successful search has walked to room. */
  lemma {:induction false} SearchWalks(slots: seq<Slot>, flags: seq<bool>, nb: nat, w: seq<nat>) returns (w': seq<nat>)
    requires Sized(slots, nb) && |flags| == |slots| && IsWalk(slots, nb, w)
    requires FlagsOf(flags, nb, w[..|w| - 1]) && SearchPath(slots, flags, nb, w[|w| - 1]).Some?
    ensures IsWalk(slots, nb, w') && w'[0] == w[0] && RoomBeside(slots, nb, w'[|w'| - 1])
    decreases Unflagged(flags)
  {
    var n := |w| - 1;
    var b := w[n];
    if RoomBeside(slots, nb, b) {
      w' := w;
    } else {
      var flags' := SearchStep(slots, flags, nb, w[..n], b);
      var longer := WalkStep(slots, nb, w);
      assert longer[..n + 1] == w[..n] + [b];
      w' := SearchWalks(slots, flags', nb, longer);
    }
  }

  lemma WalkStep(slots: seq<Slot>, nb: nat, w: seq<nat>) returns (longer: seq<nat>)
    requires Sized(slots, nb) && IsWalk(slots, nb, w) && Visits(w[..|w| - 1], w[|w| - 1]) < 4
    ensures var b := w[|w| - 1];
            && longer == w + [AltBucket(slots, nb, At(b, Visits(w[..|w| - 1], b)))]
            && IsWalk(slots, nb, longer)
  {
    var b := w[|w| - 1];
    longer := w + [AltBucket(slots, nb, At(b, Visits(w[..|w| - 1], b)))];
    forall i | 0 <= i < |longer| - 1 ensures Leaves(slots, nb, longer, i) {
      assert longer[..i] == w[..i];
      assert i < |w| - 1 ==> Leaves(slots, nb, w, i);
    }
  }

  lemma WalkNext(slots: seq<Slot>, nb: nat, w: seq<nat>, k: nat)
    requires Sized(slots, nb) && IsWalk(slots, nb, w) && k < |w| - 1
    ensures w[k] < nb && Visits(w[..k], w[k]) < 4
    ensures w[k + 1] == AltBucket(slots, nb, At(w[k], Visits(w[..k], w[k]))) && w[..k + 1] == w[..k] + [w[k]]
  {
    assert Leaves(slots, nb, w, k);
  }

  lemma RoomFinds(slots: seq<Slot>, flags: seq<bool>, nb: nat, b: nat)
    requires Sized(slots, nb) && |flags| == |slots| && b < nb && RoomBeside(slots, nb, b)
    ensures SearchPath(slots, flags, nb, b).Some?
  {
    MovableIff(slots, nb, b);
  }

  /** A walk to room leads the search to success, at its end or before. */
  lemma {:induction false} WalkSearches(slots: seq<Slot>, flags: seq<bool>, nb: nat, w: seq<nat>, k: nat)
    requires Sized(slots, nb) && |flags| == |slots| && IsWalk(slots, nb, w) && k < |w|
    requires RoomBeside(slots, nb, w[|w| - 1]) && FlagsOf(flags, nb, w[..k])
    ensures SearchPath(slots, flags, nb, w[k]).Some?
    decreases |w| - k
  {
    var b := w[k];
    if RoomBeside(slots, nb, b) {
      RoomFinds(slots, flags, nb, b);
    } else {
      assert k < |w| - 1;
      WalkNext(slots, nb, w, k);
      var flags' := SearchStep(slots, flags, nb, w[..k], b);
      WalkSearches(slots, flags', nb, w, k + 1);
    }
  }

  lemma SearchIffWalk(slots: seq<Slot>, nb: nat, b: nat)
    requires Sized(slots, nb) && b < nb
    ensures SearchPath(slots, NoFlags(|slots|), nb, b).Some? <==> WalksToRoom(slots, nb, b)
  {
    if SearchPath(slots, NoFlags(|slots|), nb, b).Some? {
      var w := SearchWalks(slots, NoFlags(|slots|), nb, [b]);
    } else if WalksToRoom(slots, nb, b) {
      var w :| IsWalk(slots, nb, w) && w[0] == b && RoomBeside(slots, nb, w[|w| - 1]);
      WalkSearches(slots, NoFlags(|slots|), nb, w, 0);
    }
  }

  /** A new key is refused exactly when all ids are in use, or when its primary bucket
      is full and the walk from there never comes beside a bucket with room: its
      secondary bucket plays no part. */
  lemma RefusedExactly<K, D>(t: Table<K, D>, hash: K -> uint32, k: K, d: D)
    requires Inv(t, hash) && k !in Abs(t)
    ensures Add(t, hash, k, d).1 == -28 <==>
            || |Abs(t)| == |t.keys| - 1
            || (var b := BucketOf(hash(k), t.nb); Full(t.slots, b) && !WalksToRoom(t.slots, t.nb, b))
  {
    RefusedWithoutPlace(t, hash, k, d);
    SearchIffWalk(t.slots, t.nb, BucketOf(hash(k), t.nb));
    FullIff(t.slots, BucketOf(hash(k), t.nb));
  }

  lemma FullIff(slots: seq<Slot>, b: nat)
    requires At(b, 3) < |slots|
    ensures Full(slots, b) <==> FirstEmpty(slots, b, 0) == 4
  {}

  // ---- conditions on paths and pointers ------------------------------------------------------

  lemma NoPathNoPlace(slots: seq<Slot>, nb: nat, b: nat)
    requires Sized(slots, nb) && b < nb && Full(slots, b)
    requires forall path :: |path| >= 2 ==> !PathFrom(slots, nb, b, path)
    ensures !HasPlace(slots, nb, b)
  {
    SearchPathCorrect(slots, NoFlags(|slots|), nb, b);
  }

  /** With no displacement path out of a full primary bucket there is no place. */
  lemma NoPathRefuses<K, D>(t: Table<K, D>, hash: K -> uint32, k: K, d: D)
    requires Inv(t, hash) && k !in Abs(t) && Full(t.slots, BucketOf(hash(k), t.nb))
    requires forall path :: |path| >= 2 ==> !PathFrom(t.slots, t.nb, BucketOf(hash(k), t.nb), path)
    ensures Add(t, hash, k, d).1 == -28
  {
    RefusedWithoutPlace(t, hash, k, d);
    NoPathNoPlace(t.slots, t.nb, BucketOf(hash(k), t.nb));
  }

  /** The entries that would move to bucket b. */
  ghost function Pointers(slots: seq<Slot>, nb: nat, b: nat): set<nat>
    requires nb > 0
  {
    set p: nat | p < |slots| && !Empty(slots[p]) && AltBucket(slots, nb, p) == b
  }

  ghost function FlaggedInto(slots: seq<Slot>, flags: seq<bool>, nb: nat, b: nat): set<nat>
    requires nb > 0 && |flags| == |slots|
  {
    set p: nat | p < |slots| && flags[p] && AltBucket(slots, nb, p) == b
  }

  ghost function FlaggedIn(flags: seq<bool>, b: nat): set<nat> {
    set p: nat | p < |flags| && flags[p] && p / 4 == b
  }

  /** Each bucket but the first has been left as often as entered, and the current one
      once less. */
  ghost predicate Balanced(slots: seq<Slot>, flags: seq<bool>, nb: nat, start: nat, b: nat)
    requires nb > 0 && |flags| == |slots|
  {
    forall c: nat :: c < nb ==> BalancedAt(slots, flags, nb, start, b, c)
  }

  ghost predicate BalancedAt(slots: seq<Slot>, flags: seq<bool>, nb: nat, start: nat, b: nat, c: nat)
    requires nb > 0 && |flags| == |slots|
  {
    |FlaggedInto(slots, flags, nb, c)| + (if c == start then 1 else 0)
      == |FlaggedIn(flags, c)| + if c == b then 1 else 0
  }

  lemma BalanceStep(slots: seq<Slot>, flags: seq<bool>, nb: nat, start: nat, b: nat, p: nat)
    requires Sized(slots, nb) && |flags| == |slots| && b < nb && p < |slots| && p / 4 == b && !flags[p]
    requires Balanced(slots, flags, nb, start, b)
    ensures Balanced(slots, flags[p := true], nb, start, AltBucket(slots, nb, p))
  {
    var flags', next := flags[p := true], AltBucket(slots, nb, p);
    forall c: nat | c < nb ensures BalancedAt(slots, flags', nb, start, next, c) {
      assert BalancedAt(slots, flags, nb, start, b, c);
      LeftOnce(flags, c, p);
      EnteredOnce(slots, flags, nb, c, p);
    }
  }

  lemma LeftOnce(flags: seq<bool>, c: nat, p: nat)
    requires p < |flags| && !flags[p]
    ensures |FlaggedIn(flags[p := true], c)| == |FlaggedIn(flags, c)| + if p / 4 == c then 1 else 0
  {
    assert FlaggedIn(flags[p := true], c) == FlaggedIn(flags, c) + if p / 4 == c then {p} else {};
  }

  lemma EnteredOnce(slots: seq<Slot>, flags: seq<bool>, nb: nat, c: nat, p: nat)
    requires nb > 0 && |flags| == |slots| && p < |flags| && !flags[p]
    ensures |FlaggedInto(slots, flags[p := true], nb, c)|
         == |FlaggedInto(slots, flags, nb, c)| + if AltBucket(slots, nb, p) == c then 1 else 0
  {
    assert FlaggedInto(slots, flags[p := true], nb, c)
        == FlaggedInto(slots, flags, nb, c) + if AltBucket(slots, nb, p) == c then {p} else {};
  }

  /** A bucket left four times was entered by four entries at least. */
  lemma FullyFlagged(slots: seq<Slot>, flags: seq<bool>, nb: nat, start: nat, b: nat)
    requires FlagsExhausted(slots, flags, nb) && b < nb && Balanced(slots, flags, nb, start, b)
    requires FirstUnflagged(flags, b, 0) == 4
    ensures |Pointers(slots, nb, b)| >= 4
  {
    assert BalancedAt(slots, flags, nb, start, b, b);
    assert forall i: nat :: i < 4 ==> flags[At(b, i)];
    assert {At(b, 0), At(b, 1), At(b, 2), At(b, 3)} <= FlaggedIn(flags, b);
    Smaller({At(b, 0), At(b, 1), At(b, 2), At(b, 3)}, FlaggedIn(flags, b));
    forall p | p in FlaggedInto(slots, flags, nb, b) ensures p in Pointers(slots, nb, b) {
      assert Exhausted(slots, nb, p / 4) && p == At(p / 4, p % 4);
    }
    Smaller(FlaggedInto(slots, flags, nb, b), Pointers(slots, nb, b));
  }

  lemma {:induction false} Smaller(a: set<nat>, b: set<nat>)
    requires a <= b
    ensures |a| <= |b|
  {
    assert b == a + (b - a);
  }

  lemma {:induction false} FewPointersSearch(slots: seq<Slot>, flags: seq<bool>, nb: nat, start: nat, b: nat)
    requires FlagsExhausted(slots, flags, nb) && b < nb && Full(slots, b)
    requires Balanced(slots, flags, nb, start, b)
    requires forall c: nat :: c < nb ==> |Pointers(slots, nb, c)| <= 3
    ensures SearchPath(slots, flags, nb, b).Some?
    decreases Unflagged(flags)
  {
    if FirstMovable(slots, nb, b, 0) == 4 {
      var i := FirstUnflagged(flags, b, 0);
      if i == 4 {
        FullyFlagged(slots, flags, nb, start, b);
      } else {
        var p := At(b, i);
        FlaggingShrinks(flags, p);
        FlaggingExhausted(slots, flags, nb, b, i);
        BalanceStep(slots, flags, nb, start, b, p);
        FewPointersSearch(slots, flags[p := true], nb, start, AltBucket(slots, nb, p));
      }
    }
  }

  /** While an id is free, a new key is accepted if no bucket is the other bucket of
      more than three entries.  StuckBucket shows that four can be too many. */
  lemma FewPointersAccepts<K, D>(t: Table<K, D>, hash: K -> uint32, k: K, d: D)
    requires Inv(t, hash) && k !in Abs(t) && |Abs(t)| < |t.keys| - 1
    requires forall c: nat :: c < t.nb ==> |Pointers(t.slots, t.nb, c)| <= 3
    ensures Add(t, hash, k, d).1 >= 0
  {
    RefusedWithoutPlace(t, hash, k, d);
    FewPointersPlace(t.slots, t.nb, BucketOf(hash(k), t.nb));
    AddCorrect(t, hash, k, d);
  }

  lemma FewPointersPlace(slots: seq<Slot>, nb: nat, b: nat)
    requires Sized(slots, nb) && b < nb && forall c: nat :: c < nb ==> |Pointers(slots, nb, c)| <= 3
    ensures HasPlace(slots, nb, b)
  {
    var flags := NoFlags(|slots|);
    FullIff(slots, b);
    if Full(slots, b) {
      forall c: nat | c < nb ensures BalancedAt(slots, flags, nb, b, b, c) {
        assert FlaggedIn(flags, c) == {} && FlaggedInto(slots, flags, nb, c) == {};
      }
      FewPointersSearch(slots, flags, nb, b, b);
    }
  }

  /** A full bucket whose four entries all have both their buckets there stays
      full: the search goes round it until everything is flagged. */
  lemma StuckBucket(slots: seq<Slot>, nb: nat, b: nat)
    requires Sized(slots, nb) && b < nb && Full(slots, b)
    requires forall i: nat :: i < 4 ==> AltBucket(slots, nb, At(b, i)) == b
    ensures !HasPlace(slots, nb, b)
  {
    StuckSearch(slots, NoFlags(|slots|), nb, b);
  }

  lemma {:induction false} StuckSearch(slots: seq<Slot>, flags: seq<bool>, nb: nat, b: nat)
    requires Sized(slots, nb) && |flags| == |slots| && b < nb && Full(slots, b)
    requires forall i: nat :: i < 4 ==> AltBucket(slots, nb, At(b, i)) == b
    ensures SearchPath(slots, flags, nb, b) == None
    decreases Unflagged(flags)
  {
    assert FirstMovable(slots, nb, b, 0) == 4;
    var i := FirstUnflagged(flags, b, 0);
    if i < 4 {
      FlaggingShrinks(flags, At(b, i));
      StuckSearch(slots, flags[At(b, i) := true], nb, b);
    }
  }

  // ---- updates -------------------------------------------------------------------------------

  /** The update of a present key is refused exactly when the table is full. */
  lemma UpdateRefusedIff<K, D>(t: Table<K, D>, hash: K -> uint32, k: K, d: D)
    requires Inv(t, hash) && k in Abs(t)
    ensures Add(t, hash, k, d).1 == -28 <==> |Abs(t)| == |t.keys| - 1
  {
    AddCorrect(t, hash, k, d);
    PositionsBounded(t, hash);
  }
}
