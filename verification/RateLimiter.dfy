/** The transmit rate control of src/transmitter.c: a burst may be sent once the
    cycle counter has passed the time its predecessor was due to take. */
module RateLimiter {

  const MAX_PKT_BURST: nat := 32
  const MAX_PKT_LEN: nat := 1514
  const PKT_SEQ_PKT_LEN: nat := 60
  const FRAME_EXTRA_BYTES: nat := 24
  const MAX_BURST_BYTES: nat := 49216
  const TWO64: nat := 0x1_0000_0000_0000_0000

  // ---- a poll -----------------------------------------------------------------------------

  /** A burst as taken from the pool: the lengths of its packets. */
  predicate IsBurst(lens: seq<nat>) {
    |lens| == MAX_PKT_BURST && forall i :: 0 <= i < |lens| ==> lens[i] <= MAX_PKT_LEN
  }

  /** The bytes a burst takes on the wire, framing included. */
  function WireSize(lens: seq<nat>): nat {
    if lens == [] then 0 else WireSize(lens[..|lens| - 1]) + lens[|lens| - 1] + FRAME_EXTRA_BYTES
  }

  lemma {:induction false} WireSizeBound(lens: seq<nat>)
    requires forall i :: 0 <= i < |lens| ==> lens[i] <= MAX_PKT_LEN
    ensures |lens| * FRAME_EXTRA_BYTES <= WireSize(lens) <= |lens| * (MAX_PKT_LEN + FRAME_EXTRA_BYTES)
  {
    if lens != [] { WireSizeBound(lens[..|lens| - 1]); }
  }

  /** Every packet counts with the 24 bytes of its frame. */
  lemma {:induction false} WireSizeAdds(a: seq<nat>, b: seq<nat>)
    ensures WireSize([]) == 0 && forall len :: WireSize([len]) == len + 24
    ensures WireSize(a + b) == WireSize(a) + WireSize(b)
    decreases |b|
  {
    if b == [] {
      assert a + b == a;
    } else {
      var n := |b| - 1;
      WireSizeAdds(a, b[..n]);
      assert (a + b)[..|a + b| - 1] == a + b[..n];
    }
  }

  /** One call of tx_ctl_tx_burst: the cycle counter, and the burst if the pool has one. */
  datatype Call = Call(cycles: nat, burst: seq<nat>, inPool: bool)

  predicate CallOk(c: Call) {
    c.cycles < TWO64 && IsBurst(c.burst)
  }

  predicate Sends(next: nat, c: Call) {
    next < c.cycles && c.inPool
  }

  /** The cycles that `size` bytes take. */
  function Cost(size: nat, rate: real): real
    requires rate >= 0.0
    decreases size
  {
    if size == 0 then 0.0 else Cost(size - 1, rate) + rate
  }

  lemma {:induction false} CostIs(size: nat, rate: real)
    requires rate >= 0.0
    ensures Cost(size, rate) == size as real * rate >= 0.0
    decreases size
  {
    if size > 0 { CostIs(size - 1, rate); }
  }

  lemma {:induction false} CostAdds(a: nat, b: nat, rate: real)
    requires rate >= 0.0
    ensures Cost(a + b, rate) == Cost(a, rate) + Cost(b, rate)
    decreases b
  {
    if b > 0 { CostAdds(a, b - 1, rate); }
  }

  lemma {:induction false} CostPositive(size: nat, rate: real)
    requires rate >= 0.0
    ensures Cost(size, rate) >= 0.0
    decreases size
  {
    if size > 0 { CostPositive(size - 1, rate); }
  }

  /** When the next burst is due, in 64-bit arithmetic. */
  function NextDue(cycles: nat, size: nat, rate: real): nat
    requires rate >= 0.0
  {
    (cycles + Cost(size, rate).Floor) % TWO64
  }

  /** The bytes times the cycles for each, rounded down, after now. */
  lemma NextDueIs(cycles: nat, size: nat, rate: real)
    requires rate >= 0.0
    ensures NextDue(cycles, size, rate) == (cycles + (size as real * rate).Floor) % 0x1_0000_0000_0000_0000
  {
    CostIs(size, rate);
  }

  /** No burst is due at a time that 64 bits cannot hold. */
  predicate NoWrap(c: Call, rate: real)
    requires rate >= 0.0
  {
    c.cycles as real + Cost(WireSize(c.burst), rate) < TWO64 as real
  }

  function After(next: nat, c: Call, rate: real): nat
    requires rate >= 0.0
  {
    if Sends(next, c) then NextDue(c.cycles, WireSize(c.burst), rate) else next
  }

  function SentBy(next: nat, c: Call): nat {
    if Sends(next, c) then WireSize(c.burst) else 0
  }

  // ---- runs -----------------------------------------------------------------------------------

  /** Calls with a cycle counter that never goes back. */
  predicate IsRun(calls: seq<Call>, rate: real) {
    && rate >= 0.0
    && (forall i :: 0 <= i < |calls| ==> CallOk(calls[i]) && (calls[i].inPool ==> NoWrap(calls[i], rate)))
    && (forall i, j :: 0 <= i <= j < |calls| ==> calls[i].cycles <= calls[j].cycles)
  }

  /** rate_next_cycles after all calls, starting from `next`. */
  function Due(calls: seq<Call>, rate: real, next: nat): nat
    requires rate >= 0.0
  {
    if calls == [] then next
    else var n := |calls| - 1; After(Due(calls[..n], rate, next), calls[n], rate)
  }

  /** The wire bytes sent by all calls. */
  function Sent(calls: seq<Call>, rate: real, next: nat): nat
    requires rate >= 0.0
  {
    if calls == [] then 0
    else var n := |calls| - 1; Sent(calls[..n], rate, next) + SentBy(Due(calls[..n], rate, next), calls[n])
  }

  /** The index of the last call that sends, or -1. */
  function LastSender(calls: seq<Call>, rate: real, next: nat): (k: int)
    requires rate >= 0.0
    ensures -1 <= k < |calls|
  {
    if calls == [] then -1
    else
      var n := |calls| - 1;
      if Sends(Due(calls[..n], rate, next), calls[n]) then n else LastSender(calls[..n], rate, next)
  }

  /** A burst sent after its predecessor was due is sent no earlier than the predecessor
      has been paid for: the rounding down of the due time is made up by the strict
      comparison. */
  lemma DuePaysFor(cycles: nat, size: nat, rate: real, later: nat)
    requires rate >= 0.0 && cycles as real + Cost(size, rate) < TWO64 as real
    requires NextDue(cycles, size, rate) < later
    ensures Cost(size, rate) <= (later - cycles) as real
  {}

  lemma DueIs(cycles: nat, size: nat, rate: real)
    requires rate >= 0.0 && cycles as real + Cost(size, rate) < TWO64 as real
    ensures Cost(size, rate) >= 0.0
    ensures NextDue(cycles, size, rate) == cycles + Cost(size, rate).Floor
  {}

  /** A burst that may be sent at `later` finds the one sent at `cycles` paid for. */
  predicate PaidBy(cycles: nat, size: nat, rate: real, later: nat)
    requires rate >= 0.0
  {
    NextDue(cycles, size, rate) < later ==> Cost(size, rate) <= (later - cycles) as real
  }

  /** The limiter keeps a burst back until its predecessor is paid for exactly when the
      due time fits in 64 bits; the third requirement is that of the conversion to an
      integer. */
  lemma PaidExactly(cycles: nat, size: nat, rate: real)
    requires cycles < TWO64 && 0.0 <= rate && Cost(size, rate) < TWO64 as real
    ensures cycles as real + Cost(size, rate) < TWO64 as real
       <==> forall later :: cycles <= later < TWO64 ==> PaidBy(cycles, size, rate, later)
  {
    CostPositive(size, rate);
    var x := Cost(size, rate);
    if cycles as real + x < TWO64 as real {
      forall later | cycles <= later < TWO64
        ensures PaidBy(cycles, size, rate, later)
      {
        if NextDue(cycles, size, rate) < later { DuePaysFor(cycles, size, rate, later); }
      }
    } else {
      assert TWO64 <= cycles + x.Floor;
      assert NextDue(cycles, size, rate) < TWO64 - 1;
      assert x > (TWO64 - 1 - cycles) as real;
      assert !PaidBy(cycles, size, rate, TWO64 - 1);
    }
  }

  lemma Prefix(calls: seq<Call>, rate: real, n: nat)
    requires IsRun(calls, rate) && n <= |calls|
    ensures IsRun(calls[..n], rate)
  {}

  lemma Suffix(calls: seq<Call>, rate: real, n: nat)
    requires IsRun(calls, rate) && n <= |calls|
    ensures IsRun(calls[n..], rate)
  {}

  /** What a run has sent but for its last burst is paid for by the time passed
      between its first call and the last burst. */
  ghost predicate Paid(calls: seq<Call>, rate: real, next: nat)
    requires |calls| > 0 && rate >= 0.0
  {
    var k := LastSender(calls, rate, next);
    if k < 0 then Sent(calls, rate, next) == 0 && Due(calls, rate, next) == next
    else
      && calls[k].inPool
      && calls[0].cycles <= calls[k].cycles
      && WireSize(calls[k].burst) <= Sent(calls, rate, next)
      && Due(calls, rate, next) == NextDue(calls[k].cycles, WireSize(calls[k].burst), rate)
      && Cost(Sent(calls, rate, next) - WireSize(calls[k].burst), rate)
           <= (calls[k].cycles - calls[0].cycles) as real
  }

  lemma {:induction false} PaidFor(calls: seq<Call>, rate: real, next: nat)
    requires IsRun(calls, rate) && |calls| > 0
    ensures Paid(calls, rate, next)
    decreases |calls|
  {
    var n := |calls| - 1;
    var init := calls[..n];
    Prefix(calls, rate, n);
    if n > 0 { PaidFor(init, rate, next); }
    if Sends(Due(init, rate, next), calls[n]) {
      PaidStep(calls, rate, next);
    }
  }

  lemma PaidStep(calls: seq<Call>, rate: real, next: nat)
    requires IsRun(calls, rate) && |calls| > 0
    requires var n := |calls| - 1;
             && (n > 0 ==> Paid(calls[..n], rate, next))
             && Sends(Due(calls[..n], rate, next), calls[n])
    ensures Paid(calls, rate, next)
  {
    var n := |calls| - 1;
    var init := calls[..n];
    var k := LastSender(init, rate, next);
    if k >= 0 {
      var last := WireSize(calls[k].burst);
      assert init[k] == calls[k] && init[0] == calls[0];
      assert NoWrap(calls[k], rate);
      DuePaysFor(calls[k].cycles, last, rate, calls[n].cycles);
      CostAdds(Sent(init, rate, next) - last, last, rate);
    }
  }

  /** In any run, and so in any window of one, the bytes sent are at most one burst and
      what the rate allows in the time passed. */
  lemma RateBound(calls: seq<Call>, rate: real, next: nat)
    requires IsRun(calls, rate) && |calls| > 0 && rate > 0.0
    ensures Sent(calls, rate, next) as real
         <= 49216.0 + (calls[|calls| - 1].cycles - calls[0].cycles) as real / rate
  {
    PaidFor(calls, rate, next);
    var k := LastSender(calls, rate, next);
    if k >= 0 {
      WireSizeBound(calls[k].burst);
      Combine(Sent(calls, rate, next), WireSize(calls[k].burst),
              calls[k].cycles - calls[0].cycles, calls[|calls| - 1].cycles - calls[0].cycles, rate);
    } else {
      Combine(0, 0, 0, calls[|calls| - 1].cycles - calls[0].cycles, rate);
    }
  }

  lemma Combine(sent: nat, last: nat, w: nat, window: nat, rate: real)
    requires rate > 0.0 && last <= sent && last <= MAX_BURST_BYTES && w <= window
    requires Cost(sent - last, rate) <= w as real
    ensures sent as real <= MAX_BURST_BYTES as real + window as real / rate
  {
    CostIs(sent - last, rate);
    DivideBy((sent - last) as real, window as real, rate);
    assert sent as real == (sent - last) as real + last as real;
  }

  lemma DivideBy(x: real, y: real, r: real)
    requires r > 0.0 && x * r <= y
    ensures x <= y / r
  {}

  /** A window of a run is a run from the state reached before it. */
  lemma {:induction false} RunFrom(calls: seq<Call>, i: nat, rate: real, next: nat)
    requires rate >= 0.0 && i <= |calls|
    ensures var mid := Due(calls[..i], rate, next);
            && Due(calls, rate, next) == Due(calls[i..], rate, mid)
            && Sent(calls, rate, next) == Sent(calls[..i], rate, next) + Sent(calls[i..], rate, mid)
    decreases |calls|
  {
    if i == |calls| {
      assert calls[..i] == calls && calls[i..] == [];
    } else {
      var n := |calls| - 1;
      var front, last := calls[..n], calls[n];
      RunFrom(front, i, rate, next);
      assert calls == front + [last] && calls[i..] == front[i..] + [last] && calls[..i] == front[..i];
      OneMore(front, last, rate, next);
      OneMore(front[i..], last, rate, Due(front[..i], rate, next));
    }
  }

  lemma OneMore(calls: seq<Call>, c: Call, rate: real, next: nat)
    requires rate >= 0.0
    ensures Due(calls + [c], rate, next) == After(Due(calls, rate, next), c, rate)
    ensures Sent(calls + [c], rate, next) == Sent(calls, rate, next) + SentBy(Due(calls, rate, next), c)
  {
    assert (calls + [c])[..|calls|] == calls;
  }

  /** The bound holds for the calls i to j-1 of a run. */
  lemma WindowBound(calls: seq<Call>, i: nat, j: nat, rate: real, next: nat)
    requires IsRun(calls, rate) && i < j <= |calls| && rate > 0.0
    ensures (Sent(calls[..j], rate, next) - Sent(calls[..i], rate, next)) as real
         <= 49216.0 + (calls[j - 1].cycles - calls[i].cycles) as real / rate
  {
    var upto, window := calls[..j], calls[i..j];
    assert upto[..i] == calls[..i] && upto[i..] == window;
    Prefix(calls, rate, j);
    Suffix(upto, rate, i);
    RunFrom(upto, i, rate, next);
    RateBound(window, rate, Due(calls[..i], rate, next));
  }

  /** A call that finds a burst in the pool is held back only until the last burst has
      been paid for, or before the first one until the due time at the start. */
  lemma HeldBackOnlyForRate(calls: seq<Call>, c: Call, rate: real, next: nat)
    requires IsRun(calls, rate) && c.inPool && !Sends(Due(calls, rate, next), c)
    ensures var k := LastSender(calls, rate, next);
            if k < 0 then c.cycles <= next
            else (c.cycles - calls[k].cycles) as real <= Cost(WireSize(calls[k].burst), rate)
  {
    if calls != [] { PaidFor(calls, rate, next); }
    var k := LastSender(calls, rate, next);
    if k >= 0 {
      assert NoWrap(calls[k], rate);
      DueIs(calls[k].cycles, WireSize(calls[k].burst), rate);
    }
  }

  /** A burst of the packets the program sends, 60 bytes each. */
  function DefaultBurst(): seq<nat> { seq(MAX_PKT_BURST, _ => PKT_SEQ_PKT_LEN) }

  lemma {:induction false} WireSizeOf(lens: seq<nat>, len: nat)
    requires forall i :: 0 <= i < |lens| ==> lens[i] == len
    ensures WireSize(lens) == |lens| * (len + FRAME_EXTRA_BYTES)
    decreases |lens|
  {
    if lens != [] {
      WireSizeOf(lens[..|lens| - 1], len);
      assert |lens| * (len + FRAME_EXTRA_BYTES) == (|lens| - 1) * (len + FRAME_EXTRA_BYTES) + len + FRAME_EXTRA_BYTES;
    }
  }

  /** The due time of a burst that 64 bits cannot hold wraps round, and the next call
      sends in the same cycle: here at one cycle for each byte. */
  lemma WrapLosesTheBound()
    ensures var c := Call(TWO64 - 1, DefaultBurst(), true);
            var next := After(0, c, 1.0);
            && CallOk(c) && Sends(0, c) && !NoWrap(c, 1.0) && Sends(next, c)
            && Sent([c, c], 1.0, 0) == 2 * 2688
  {
    var c := Call(TWO64 - 1, DefaultBurst(), true);
    WireSizeOf(c.burst, PKT_SEQ_PKT_LEN);
    CostIs(2688, 1.0);
    assert [c, c][..1] == [c] && [c][..0] == [];
    assert Sent([c], 1.0, 0) == 2688 && Due([c], 1.0, 0) == After(0, c, 1.0);
  }

  // ---- the controller ----------------------------------------------------------------------------

  /** __get_tx_cycles_per_byte. */
  function CyclesPerByte(cpuHz: nat, bps: nat): (r: real)
    requires bps > 0
    ensures r * bps as real == 8.0 * cpuHz as real
  {
    cpuHz as real * 8.0 / bps as real
  }

  function Sum(s: seq<nat>): nat {
    if s == [] then 0 else s[0] + Sum(s[1..])
  }

  class TxCtl {
    var totalSize: nat
    var len: nat
    var rateCycles: real
    var rateNextCycles: nat

    ghost predicate Valid()
      reads this
    {
      totalSize == 0 && len == 0 && rateCycles >= 0.0 && rateNextCycles < TWO64
    }

    constructor (cpuHz: nat, rateBps: nat)
      requires rateBps > 0
      ensures Valid() && rateNextCycles == 0
      ensures rateCycles * rateBps as real == 8.0 * cpuHz as real
    {
      totalSize, len, rateNextCycles := 0, 0, 0;
      rateCycles := CyclesPerByte(cpuHz, rateBps);
    }

    /** __send_burst: the device takes some packets at each call, in order, until all
        are taken.  `takes` are the numbers it is ready to take. */
    static method SendBurst<P>(pkts: seq<P>, takes: seq<nat>) returns (sent: seq<P>)
      requires Sum(takes) >= |pkts|
      ensures sent == pkts
    {
      sent := [];
      var rest, cnt, n := pkts, |pkts|, 0;
      while cnt > 0
        invariant 0 <= n <= |takes| && cnt == |rest| && sent + rest == pkts
        invariant Sum(takes[n..]) >= cnt
        decreases |takes| - n
      {
        var ret := if takes[n] < cnt then takes[n] else cnt;
        assert takes[n..][1..] == takes[n + 1..];
        assert sent + rest == sent + rest[..ret] + rest[ret..];
        sent, rest := sent + rest[..ret], rest[ret..];
        cnt := cnt - ret;
        n := n + 1;
      }
    }

    /** The summing loop of tx_ctl_tx_burst. */
    method FillBurst(burst: seq<nat>)
      requires IsBurst(burst) && totalSize == 0
      modifies this`totalSize, this`len
      ensures totalSize == WireSize(burst) && len == MAX_PKT_BURST
    {
      var i := 0;
      while i < MAX_PKT_BURST
        invariant 0 <= i <= MAX_PKT_BURST
        invariant totalSize == WireSize(burst[..i])
      {
        assert burst[..i + 1][..i] == burst[..i];
        WireSizeBound(burst[..i + 1]);
        totalSize := (totalSize + burst[i] + FRAME_EXTRA_BYTES) % 0x1_0000_0000;
        i := i + 1;
      }
      assert burst[..i] == burst;
      len := MAX_PKT_BURST;
    }

    static method SetNext(cycles: nat, size: nat, rate: real) returns (next: nat)
      requires rate >= 0.0
      ensures next == NextDue(cycles, size, rate)
    {
      NextDueIs(cycles, size, rate);
      next := (cycles + (size as real * rate).Floor) % TWO64;
    }

    /** tx_ctl_tx_burst: 0 also when it is too early, -1 when the pool has no burst.  The
        next burst is due when the bytes of this one have taken their cycles. */
    method TxBurst(c: Call, takes: seq<nat>) returns (rc: int, sent: seq<nat>)
      requires Valid() && CallOk(c) && Sum(takes) >= MAX_PKT_BURST
      modifies this
      ensures Valid() && rateCycles == old(rateCycles)
      ensures rateNextCycles == After(old(rateNextCycles), c, rateCycles)
      ensures rateNextCycles ==
        if old(rateNextCycles) < c.cycles && c.inPool
        then NextDue(c.cycles, WireSize(c.burst), rateCycles)
        else old(rateNextCycles)
      ensures sent == if old(rateNextCycles) < c.cycles && c.inPool then c.burst else []
      ensures rc == if old(rateNextCycles) < c.cycles && !c.inPool then -1 else 0
    {
      var cycles := c.cycles;
      if rateNextCycles >= cycles {
        return 0, [];
      }
      if !c.inPool {
        return -1, [];
      }
      FillBurst(c.burst);
      sent := SendBurst(c.burst, takes);
      rateNextCycles := SetNext(cycles, totalSize, rateCycles);
      len, totalSize := 0, 0;
      rc := 0;
    }
  }
}
