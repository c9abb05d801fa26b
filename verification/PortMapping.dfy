/** Which lcore polls which queue: the check of the configured mappings and the tables
    filled from them (src/main.c, src/port.c). */
module PortMapping {

  import B = Bits

  const MAX_LCORE_PARAMS: nat := 128
  const MAX_PORT_PER_JOB: nat := 4
  const LCORE_JOB_TX: nat := 1
  const LCORE_JOB_MAX: nat := 2
  const RTE_MAX_LCORE: nat := 128
  const ERR_OUT_OF_RANGE: int := -2

  datatype Mapping = Mapping(port: nat, job: nat, lcore: nat)

  /** The enabled ports and lcores, and the lcore that does the statistics. */
  datatype Env = Env(enabled: seq<bool>, lcores: set<nat>, stat: nat)

  predicate IsEnv(e: Env) {
    e.stat < RTE_MAX_LCORE && forall l :: l in e.lcores ==> l < RTE_MAX_LCORE
  }

  // ---- which mappings are kept -----------------------------------------------------------

  predicate Good(m: Mapping, e: Env) {
    m.port < |e.enabled| && e.enabled[m.port] && m.lcore in e.lcores && m.lcore != e.stat
  }

  predicate SameQueue(m: Mapping, n: Mapping) {
    m.port == n.port && m.job == n.job
  }

  /** Some valid mapping among the first n is for the queue of m. */
  predicate Claimed(ms: seq<Mapping>, e: Env, n: nat, m: Mapping)
    requires n <= |ms|
  {
    exists j :: 0 <= j < n && Good(ms[j], e) && SameQueue(ms[j], m)
  }

  /** Mapping i is the first valid one for its queue. */
  predicate IsFirst(ms: seq<Mapping>, e: Env, i: nat) {
    i < |ms| && Good(ms[i], e) && !Claimed(ms, e, i, ms[i])
  }

  /** The mappings to keep among the first n. */
  function Kept(ms: seq<Mapping>, e: Env, n: nat): seq<Mapping>
    requires n <= |ms|
    decreases n
  {
    if n == 0 then [] else Kept(ms, e, n - 1) + if IsFirst(ms, e, n - 1) then [ms[n - 1]] else []
  }

  /** Where they stand. */
  function Firsts(ms: seq<Mapping>, e: Env, n: nat): seq<nat>
    requires n <= |ms|
    decreases n
  {
    if n == 0 then [] else Firsts(ms, e, n - 1) + if IsFirst(ms, e, n - 1) then [n - 1] else []
  }

  /** The kept mappings are the first valid ones of their queues, all of them and in
      their order. */
  lemma {:induction false} KeptAre(ms: seq<Mapping>, e: Env, n: nat)
    requires n <= |ms|
    ensures var f := Firsts(ms, e, n);
            && |f| == |Kept(ms, e, n)|
            && (forall a :: 0 <= a < |f| ==> f[a] < n && IsFirst(ms, e, f[a]) && Kept(ms, e, n)[a] == ms[f[a]])
            && (forall a, b :: 0 <= a < b < |f| ==> f[a] < f[b])
            && (forall i :: 0 <= i < n && IsFirst(ms, e, i) ==> i in f)
    decreases n
  {
    if n > 0 { KeptAre(ms, e, n - 1); }
  }

  predicate Has(ks: seq<Mapping>, m: Mapping) {
    exists k :: 0 <= k < |ks| && SameQueue(ks[k], m)
  }

  /** To look among the kept mappings is to look among all valid ones. */
  lemma {:induction false} HasClaimed(ms: seq<Mapping>, e: Env, n: nat, m: Mapping)
    requires n <= |ms|
    ensures Has(Kept(ms, e, n), m) <==> Claimed(ms, e, n, m)
    decreases n
  {
    if n > 0 {
      HasClaimed(ms, e, n - 1, m);
      HasClaimed(ms, e, n - 1, ms[n - 1]);
      ClaimedStep(ms, e, n, m);
      if IsFirst(ms, e, n - 1) {
        HasAppend(Kept(ms, e, n - 1), ms[n - 1], m);
      } else {
        assert Kept(ms, e, n) == Kept(ms, e, n - 1);
      }
    }
  }

  lemma HasAppend(ks: seq<Mapping>, k: Mapping, m: Mapping)
    ensures Has(ks + [k], m) <==> Has(ks, m) || SameQueue(k, m)
  {
    var all := ks + [k];
    assert all[|ks|] == k && forall a :: 0 <= a < |ks| ==> all[a] == ks[a];
  }

  lemma ClaimedStep(ms: seq<Mapping>, e: Env, n: nat, m: Mapping)
    requires 0 < n <= |ms|
    ensures Claimed(ms, e, n, m)
       <==> Claimed(ms, e, n - 1, m) || (Good(ms[n - 1], e) && SameQueue(ms[n - 1], m))
    ensures SameQueue(ms[n - 1], m) ==> Claimed(ms, e, n - 1, m) == Claimed(ms, e, n - 1, ms[n - 1])
  {}

  /** Each queue is kept once, and only with a valid mapping. */
  ghost predicate OnePerQueue(ks: seq<Mapping>) {
    forall a, b :: 0 <= a < b < |ks| ==> !SameQueue(ks[a], ks[b])
  }

  lemma {:induction false} KeptOnePerQueue(ms: seq<Mapping>, e: Env, n: nat)
    requires n <= |ms|
    ensures OnePerQueue(Kept(ms, e, n))
    ensures forall k :: 0 <= k < |Kept(ms, e, n)| ==> Good(Kept(ms, e, n)[k], e) && Kept(ms, e, n)[k] in ms[..n]
    decreases n
  {
    if n > 0 {
      KeptOnePerQueue(ms, e, n - 1);
      HasClaimed(ms, e, n - 1, ms[n - 1]);
      assert ms[..n] == ms[..n - 1] + [ms[n - 1]];
    }
  }

  // ---- how many there are ----------------------------------------------------------------

  function EnabledPorts(enabled: seq<bool>, n: nat): seq<nat>
    requires n <= |enabled|
    decreases n
  {
    if n == 0 then [] else EnabledPorts(enabled, n - 1) + if enabled[n - 1] then [n - 1] else []
  }

  function AllEnabled(e: Env): seq<nat> {
    EnabledPorts(e.enabled, |e.enabled|)
  }

  lemma EnabledAre(enabled: seq<bool>, n: nat)
    requires n <= |enabled|
    ensures |EnabledPorts(enabled, n)| <= n
    ensures forall p: nat :: p in EnabledPorts(enabled, n) <==> p < n && enabled[p]
    ensures forall a, b :: 0 <= a < b < |EnabledPorts(enabled, n)| ==>
              EnabledPorts(enabled, n)[a] < EnabledPorts(enabled, n)[b]
  {
    EnabledIn(enabled, n);
    EnabledInOrder(enabled, n);
  }

  lemma {:induction false} EnabledIn(enabled: seq<bool>, n: nat)
    requires n <= |enabled|
    ensures |EnabledPorts(enabled, n)| <= n
    ensures forall p: nat :: p in EnabledPorts(enabled, n) <==> p < n && enabled[p]
    decreases n
  {
    if n > 0 { EnabledIn(enabled, n - 1); }
  }

  lemma {:induction false} EnabledInOrder(enabled: seq<bool>, n: nat)
    requires n <= |enabled|
    ensures forall a, b :: 0 <= a < b < |EnabledPorts(enabled, n)| ==>
              EnabledPorts(enabled, n)[a] < EnabledPorts(enabled, n)[b]
    decreases n
  {
    if n > 0 {
      EnabledInOrder(enabled, n - 1);
      EnabledIn(enabled, n - 1);
      var init := EnabledPorts(enabled, n - 1);
      assert forall a :: 0 <= a < |init| ==> init[a] in init;
    }
  }

  /** The queues of the first n ports, numbered. */
  function Queues(enabled: seq<bool>, n: nat): set<nat>
    requires n <= |enabled|
    decreases n
  {
    if n == 0 then {}
    else Queues(enabled, n - 1) + if enabled[n - 1] then {2 * (n - 1), 2 * (n - 1) + 1} else {}
  }

  lemma {:induction false} QueueIn(enabled: seq<bool>, n: nat, p: nat, j: nat)
    requires p < n <= |enabled| && enabled[p] && j < LCORE_JOB_MAX
    ensures Queue(p, j) in Queues(enabled, n)
    decreases n
  {
    if p < n - 1 { QueueIn(enabled, n - 1, p, j); }
  }

  lemma {:induction false} QueuesAre(enabled: seq<bool>, n: nat)
    requires n <= |enabled|
    ensures |Queues(enabled, n)| <= 2 * |EnabledPorts(enabled, n)|
    ensures forall p, j | 0 <= p < n && enabled[p] && 0 <= j < LCORE_JOB_MAX :: Queue(p, j) in Queues(enabled, n)
    decreases n
  {
    if n > 0 {
      QueuesAre(enabled, n - 1);
      AtMostTwoMore(Queues(enabled, n - 1), 2 * (n - 1), 2 * (n - 1) + 1);
    }
    forall p, j | 0 <= p < n && enabled[p] && 0 <= j < LCORE_JOB_MAX ensures Queue(p, j) in Queues(enabled, n) {
      QueueIn(enabled, n, p, j);
    }
  }

  lemma AtMostTwoMore(s: set<nat>, x: nat, y: nat)
    ensures |s + {x, y}| <= |s| + 2
  {
    assert s + {x, y} == s + {x} + {y};
  }

  function Queue(port: nat, job: nat): nat { 2 * port + job }

  lemma {:induction false} Pigeonhole(ks: seq<Mapping>, qs: set<nat>)
    requires OnePerQueue(ks)
    requires forall k :: 0 <= k < |ks| ==> ks[k].job < LCORE_JOB_MAX && Queue(ks[k].port, ks[k].job) in qs
    ensures |ks| <= |qs|
    decreases |ks|
  {
    if ks != [] {
      var n := |ks| - 1;
      Pigeonhole(ks[..n], qs - {Queue(ks[n].port, ks[n].job)});
    }
  }

  predicate AreJobs(ms: seq<Mapping>) {
    forall i :: 0 <= i < |ms| ==> ms[i].job < LCORE_JOB_MAX
  }

  /** At most two mappings are kept for each enabled port. */
  lemma KeptBound(ms: seq<Mapping>, e: Env, n: nat)
    requires n <= |ms| && AreJobs(ms)
    ensures |Kept(ms, e, n)| <= 2 * |AllEnabled(e)| <= 2 * |e.enabled|
  {
    KeptOnePerQueue(ms, e, n);
    QueuesAre(e.enabled, |e.enabled|);
    EnabledAre(e.enabled, |e.enabled|);
    var ks := Kept(ms, e, n);
    forall k | 0 <= k < |ks|
      ensures ks[k].job < LCORE_JOB_MAX && Queue(ks[k].port, ks[k].job) in Queues(e.enabled, |e.enabled|)
    {
      assert Good(ks[k], e) && ks[k] in ms;
    }
    Pigeonhole(ks, Queues(e.enabled, |e.enabled|));
  }

  // ---- when the array is long enough -----------------------------------------------------

  /** Mappings for both queues of each of some ports. */
  function BothQueues(ports: seq<nat>, lcore: nat): seq<Mapping> {
    seq(2 * |ports|, i requires 0 <= i < 2 * |ports| => Mapping(ports[i / 2], i % 2, lcore))
  }

  lemma BothOnePerQueue(ports: seq<nat>, lcore: nat)
    requires forall a, b :: 0 <= a < b < |ports| ==> ports[a] != ports[b]
    ensures OnePerQueue(BothQueues(ports, lcore))
  {
    var ms := BothQueues(ports, lcore);
    forall a, b | 0 <= a < b < |ms| ensures !SameQueue(ms[a], ms[b]) {
      if a / 2 != b / 2 {
        assert ports[a / 2] != ports[b / 2];
      }
    }
  }

  /** Valid mappings for different queues are all kept. */
  lemma {:induction false} AllKept(ms: seq<Mapping>, e: Env, n: nat)
    requires n <= |ms| && OnePerQueue(ms) && forall i :: 0 <= i < |ms| ==> Good(ms[i], e)
    ensures Kept(ms, e, n) == ms[..n]
    decreases n
  {
    if n > 0 {
      AllKept(ms, e, n - 1);
      assert IsFirst(ms, e, n - 1);
      assert ms[..n] == ms[..n - 1] + [ms[n - 1]];
    }
  }

  /** A configuration that leaves no place for the first measurement job. */
  lemma FullList(e: Env, lcore: nat) returns (ms: seq<Mapping>)
    requires |AllEnabled(e)| >= 64 && lcore in e.lcores && lcore != e.stat
    ensures |ms| == MAX_LCORE_PARAMS && AreJobs(ms) && Kept(ms, e, |ms|) == ms
  {
    var ports := FirstEnabled(e, 64);
    ms := BothQueues(ports, lcore);
    BothOnePerQueue(ports, lcore);
    BothGood(ports, e, lcore);
    AllKept(ms, e, |ms|);
    assert ms[..|ms|] == ms;
  }

  lemma FirstEnabled(e: Env, n: nat) returns (ports: seq<nat>)
    requires n <= |AllEnabled(e)|
    ensures |ports| == n && forall a :: 0 <= a < n ==> ports[a] < |e.enabled| && e.enabled[ports[a]]
    ensures forall a, b :: 0 <= a < b < n ==> ports[a] != ports[b]
  {
    EnabledAre(e.enabled, |e.enabled|);
    ports := AllEnabled(e)[..n];
    assert forall a :: 0 <= a < n ==> ports[a] in AllEnabled(e);
  }

  lemma BothGood(ports: seq<nat>, e: Env, lcore: nat)
    requires lcore in e.lcores && lcore != e.stat
    requires forall a :: 0 <= a < |ports| ==> ports[a] < |e.enabled| && e.enabled[ports[a]]
    ensures AreJobs(BothQueues(ports, lcore))
    ensures forall i :: 0 <= i < |BothQueues(ports, lcore)| ==> Good(BothQueues(ports, lcore)[i], e)
  {}

  ghost predicate AlwaysRoom(e: Env) {
    forall ms: seq<Mapping> :: |ms| <= MAX_LCORE_PARAMS && AreJobs(ms) ==> |Kept(ms, e, |ms|)| < MAX_LCORE_PARAMS
  }

  /** The first measurement job has a place in the array for every configuration exactly
      when fewer than 64 ports are enabled or no lcore but the statistics one is. */
  lemma RoomIff(e: Env)
    ensures AlwaysRoom(e) <==> |AllEnabled(e)| < 64 || e.lcores <= {e.stat}
  {
    if |AllEnabled(e)| < 64 || e.lcores <= {e.stat} {
      forall ms: seq<Mapping> | |ms| <= MAX_LCORE_PARAMS && AreJobs(ms)
        ensures |Kept(ms, e, |ms|)| < MAX_LCORE_PARAMS
      {
        RoomFor(ms, e);
      }
    } else {
      var lcore :| lcore in e.lcores && lcore != e.stat;
      var ms := FullList(e, lcore);
    }
  }

  lemma RoomFor(ms: seq<Mapping>, e: Env)
    requires AreJobs(ms) && (|AllEnabled(e)| < 64 || e.lcores <= {e.stat})
    ensures |Kept(ms, e, |ms|)| < MAX_LCORE_PARAMS
  {
    KeptBound(ms, e, |ms|);
    KeptOnePerQueue(ms, e, |ms|);
    var ks := Kept(ms, e, |ms|);
    assert e.lcores <= {e.stat} && ks != [] ==> Good(ks[0], e);
  }

  /** With 64 ports and one forwarding lcore a list of 128 mappings is kept whole, and
      the first measurement job is written behind the array. */
  lemma SixtyFour() returns (e: Env, ms: seq<Mapping>)
    ensures IsEnv(e) && |e.enabled| == 64 && e.lcores == {0, 1} && e.stat == 0
    ensures |ms| == MAX_LCORE_PARAMS && AreJobs(ms) && |Kept(ms, e, |ms|)| == MAX_LCORE_PARAMS
  {
    e := Env(seq(64, _ => true), {0, 1}, 0);
    CountAll(e.enabled, 64);
    ms := FullList(e, 1);
  }

  lemma {:induction false} CountAll(enabled: seq<bool>, n: nat)
    requires n <= |enabled| && forall p :: 0 <= p < n ==> enabled[p]
    ensures |EnabledPorts(enabled, n)| == n
    decreases n
  {
    if n > 0 { CountAll(enabled, n - 1); }
  }

  // ---- the list after the check ----------------------------------------------------------

  /** The measurement jobs: the statistics lcore transmits on every port. */
  function StatJobs(ports: seq<nat>, stat: nat): (r: seq<Mapping>)
    ensures |r| == |ports|
  {
    seq(|ports|, i requires 0 <= i < |ports| => Mapping(ports[i], LCORE_JOB_TX, stat))
  }

  function Cut(ms: seq<Mapping>): seq<Mapping> {
    if |ms| <= MAX_LCORE_PARAMS then ms else ms[..MAX_LCORE_PARAMS]
  }

  function Checked(ms: seq<Mapping>, e: Env): seq<Mapping> {
    Cut(Kept(ms, e, |ms|) + StatJobs(AllEnabled(e), e.stat))
  }

  /** How many of the measurement jobs there is a place for. */
  function StatCount(ms: seq<Mapping>, e: Env): (n: nat)
    ensures n <= |AllEnabled(e)|
  {
    var kept := |Kept(ms, e, |ms|)|;
    if kept + |AllEnabled(e)| <= MAX_LCORE_PARAMS then |AllEnabled(e)|
    else if kept <= MAX_LCORE_PARAMS then MAX_LCORE_PARAMS - kept
    else 0
  }

  lemma CheckedParts(ms: seq<Mapping>, e: Env)
    requires |Kept(ms, e, |ms|)| <= MAX_LCORE_PARAMS
    ensures Checked(ms, e) == Kept(ms, e, |ms|) + StatJobs(AllEnabled(e)[..StatCount(ms, e)], e.stat)
  {}

  /** With at most 42 ports no measurement job is cut off. */
  lemma NothingCut(ms: seq<Mapping>, e: Env)
    requires AreJobs(ms) && |e.enabled| <= 42
    ensures Checked(ms, e) == Kept(ms, e, |ms|) + StatJobs(AllEnabled(e), e.stat)
  {
    KeptBound(ms, e, |ms|);
    EnabledAre(e.enabled, |e.enabled|);
  }

  /** With a port enabled, and a place left for it, the list is not empty. */
  lemma NeverEmpty(ms: seq<Mapping>, e: Env, p: nat)
    requires |Kept(ms, e, |ms|)| < MAX_LCORE_PARAMS && p < |e.enabled| && e.enabled[p]
    ensures |Checked(ms, e)| > |Kept(ms, e, |ms|)|
  {
    EnabledAre(e.enabled, |e.enabled|);
    assert p in AllEnabled(e);
  }

  lemma {:induction false} EnabledPrefix(enabled: seq<bool>, n: nat, m: nat)
    requires n <= m <= |enabled|
    ensures EnabledPorts(enabled, n) <= EnabledPorts(enabled, m)
    decreases m
  {
    if n < m { EnabledPrefix(enabled, n, m - 1); }
  }

  /** The list is cut at 128 entries when the loop stops there. */
  lemma CutAt(ks: seq<Mapping>, e: Env, n: nat)
    requires n <= |e.enabled| && |ks| + |EnabledPorts(e.enabled, n)| == MAX_LCORE_PARAMS
    ensures Cut(ks + StatJobs(AllEnabled(e), e.stat)) == ks + StatJobs(EnabledPorts(e.enabled, n), e.stat)
  {
    EnabledPrefix(e.enabled, n, |e.enabled|);
  }

  /** The scan of the kept mappings for the queue of m. */
  method FindDuplicate(params: array<Mapping>, cnt: nat, m: Mapping) returns (isDup: bool)
    requires cnt <= params.Length
    ensures isDup <==> Has(params[..cnt], m)
  {
    isDup := false;
    var j := 0;
    while j < cnt
      invariant 0 <= j <= cnt
      invariant forall k :: 0 <= k < j ==> !SameQueue(params[k], m)
    {
      if params[j].port == m.port && params[j].job == m.job {
        assert SameQueue(params[..cnt][j], m);
        return true;
      }
      j := j + 1;
    }
  }

  /** The compaction in __check_mapping. */
  method Compact(params: array<Mapping>, nb: nat, e: Env) returns (cnt: nat)
    requires nb <= params.Length
    modifies params
    ensures cnt <= nb
    ensures params[..cnt] == Kept(old(params[..nb]), e, nb)
    ensures params[cnt..] == old(params[cnt..])
  {
    ghost var ms := params[..nb];
    ghost var was := params[..];
    cnt := 0;
    var i := 0;
    while i < nb
      invariant 0 <= cnt <= i <= nb
      invariant params[..cnt] == Kept(ms, e, i)
      invariant params[cnt..] == was[cnt..]
    {
      var m := params[i];
      assert m == params[cnt..][i - cnt] == ms[i];
      HasClaimed(ms, e, i, m);
      i := i + 1;
      if m.port >= |e.enabled| || !e.enabled[m.port] || m.lcore !in e.lcores || m.lcore == e.stat {
        continue;
      }
      var isDup := FindDuplicate(params, cnt, m);
      if isDup {
        continue;
      }
      StoreAt(params, cnt, i - 1, m);
      cnt := cnt + 1;
      assert params[cnt..] == was[cnt - 1..][1..];
    }
  }

  method StoreAt(params: array<Mapping>, cnt: nat, i: nat, m: Mapping)
    requires cnt <= i < params.Length && params[i] == m
    modifies params
    ensures params[..cnt + 1] == old(params[..cnt]) + [m]
    ensures params[cnt + 1..] == old(params[cnt + 1..])
  {
    if cnt < i {
      params[cnt] := m;
    }
  }

  method AppendJob(params: array<Mapping>, cnt: nat, m: Mapping)
    requires cnt < params.Length
    modifies params
    ensures params[..cnt + 1] == old(params[..cnt]) + [m]
    ensures params[cnt + 1..] == old(params[cnt..])[1..]
  {
    params[cnt] := m;
  }

  lemma StatStep(ks: seq<Mapping>, e: Env, i: nat)
    requires i < |e.enabled| && e.enabled[i]
    ensures ks + StatJobs(EnabledPorts(e.enabled, i), e.stat) + [Mapping(i, LCORE_JOB_TX, e.stat)]
         == ks + StatJobs(EnabledPorts(e.enabled, i + 1), e.stat)
  {}

  /** __check_mapping.  The requirement leaves a place for the first measurement job;
      KeptBound gives it whenever there are at most 63 ports. */
  method CheckMapping(params: array<Mapping>, nb: nat, e: Env) returns (cnt: nat)
    requires params.Length == MAX_LCORE_PARAMS && nb <= MAX_LCORE_PARAMS
    requires |Kept(params[..nb], e, nb)| < MAX_LCORE_PARAMS
    modifies params
    ensures cnt <= MAX_LCORE_PARAMS
    ensures params[..cnt] == Checked(old(params[..nb]), e)
    ensures params[cnt..] == old(params[cnt..])
  {
    ghost var ms := params[..nb];
    ghost var was := params[..];
    cnt := Compact(params, nb, e);
    ghost var ks := Kept(ms, e, nb);
    var i := 0;
    while i < |e.enabled|
      invariant 0 <= i <= |e.enabled| && cnt < MAX_LCORE_PARAMS
      invariant params[..cnt] == ks + StatJobs(EnabledPorts(e.enabled, i), e.stat)
      invariant params[cnt..] == was[cnt..]
    {
      if e.enabled[i] {
        AppendJob(params, cnt, Mapping(i, LCORE_JOB_TX, e.stat));
        StatStep(ks, e, i);
        cnt := cnt + 1;
        assert params[cnt..] == was[cnt - 1..][1..];
        if cnt >= MAX_LCORE_PARAMS {
          CutAt(ks, e, i + 1);
          return;
        }
      }
      i := i + 1;
    }
  }

  // ---- the two indexes ---------------------------------------------------------------------

  /** The ports of lcore l's job j, in the order of the list. */
  function Assigned(ms: seq<Mapping>, l: nat, j: nat): seq<nat> {
    if ms == [] then []
    else
      var m := ms[|ms| - 1];
      Assigned(ms[..|ms| - 1], l, j) + if m.lcore == l && m.job == j then [m.port] else []
  }

  /** The lcore that port p remembers for job j. */
  function LcoreOf(ms: seq<Mapping>, p: nat, j: nat, stat: nat, before: nat): nat {
    if ms == [] then before
    else
      var m := ms[|ms| - 1];
      if m.port == p && m.job == j && m.lcore != stat then m.lcore
      else LcoreOf(ms[..|ms| - 1], p, j, stat, before)
  }

  lemma {:induction false} AssignedIff(ms: seq<Mapping>, l: nat, j: nat, p: nat)
    ensures p in Assigned(ms, l, j) <==> Mapping(p, j, l) in ms
    decreases |ms|
  {
    if ms != [] {
      var n := |ms| - 1;
      AssignedIff(ms[..n], l, j, p);
      assert ms == ms[..n] + [ms[n]];
    }
  }

  /** No two lcores other than `stat` have the same queue, and none has one twice. */
  ghost predicate Exclusive(ms: seq<Mapping>, stat: nat) {
    forall a, b :: 0 <= a < b < |ms| && ms[a].lcore != stat && ms[b].lcore != stat ==> !SameQueue(ms[a], ms[b])
  }

  lemma NotBefore(ms: seq<Mapping>, stat: nat, l: nat)
    requires Exclusive(ms, stat) && |ms| > 0 && l != stat && ms[|ms| - 1].lcore != stat
    ensures ms[|ms| - 1].port !in Assigned(ms[..|ms| - 1], l, ms[|ms| - 1].job)
  {
    var n := |ms| - 1;
    AssignedIff(ms[..n], l, ms[n].job, ms[n].port);
    assert forall a :: 0 <= a < n && ms[a].lcore == l ==> !SameQueue(ms[a], ms[n]);
  }

  lemma {:induction false} Inverse(ms: seq<Mapping>, stat: nat, p: nat, j: nat, l: nat, before: nat)
    requires Exclusive(ms, stat) && l != stat && before != l
    ensures p in Assigned(ms, l, j) <==> LcoreOf(ms, p, j, stat, before) == l
    decreases |ms|
  {
    if ms != [] {
      var n := |ms| - 1;
      Inverse(ms[..n], stat, p, j, l, before);
      if ms[n].lcore != stat { NotBefore(ms, stat, l); }
    }
  }

  lemma {:induction false} AssignedOnce(ms: seq<Mapping>, stat: nat, l: nat, j: nat)
    requires Exclusive(ms, stat) && l != stat
    ensures forall a, b :: 0 <= a < b < |Assigned(ms, l, j)| ==> Assigned(ms, l, j)[a] != Assigned(ms, l, j)[b]
    decreases |ms|
  {
    if ms != [] {
      var n := |ms| - 1;
      AssignedOnce(ms[..n], stat, l, j);
      if ms[n].lcore != stat { NotBefore(ms, stat, l); }
    }
  }

  lemma CheckedIsExclusive(ms: seq<Mapping>, e: Env)
    ensures Exclusive(Checked(ms, e), e.stat)
    ensures forall i :: 0 <= i < |Checked(ms, e)| ==>
      var m := Checked(ms, e)[i];
      m.port < |e.enabled| && e.enabled[m.port] && (m.lcore in e.lcores || m.lcore == e.stat)
  {
    KeptOnePerQueue(ms, e, |ms|);
    EnabledAre(e.enabled, |e.enabled|);
    var ks, cs := Kept(ms, e, |ms|), Checked(ms, e);
    forall i | 0 <= i < |cs|
      ensures cs[i].port < |e.enabled| && e.enabled[cs[i].port]
      ensures if i < |ks| then cs[i] == ks[i] && cs[i].lcore in e.lcores else cs[i].lcore == e.stat
    {
      if i < |ks| {
        assert Good(ks[i], e);
      } else {
        assert AllEnabled(e)[i - |ks|] in AllEnabled(e);
      }
    }
  }

  /** After the check the two indexes are inverse to each other on the lcores that
      forward, so no queue has two of them. */
  lemma IndexesAreInverse(ms: seq<Mapping>, e: Env, p: nat, j: nat, l: nat)
    requires IsEnv(e) && l < RTE_MAX_LCORE && l != e.stat
    ensures p in Assigned(Checked(ms, e), l, j)
       <==> LcoreOf(Checked(ms, e), p, j, e.stat, RTE_MAX_LCORE) == l
  {
    CheckedIsExclusive(ms, e);
    Inverse(Checked(ms, e), e.stat, p, j, l, RTE_MAX_LCORE);
  }

  // ---- the entries of the port table ---------------------------------------------------------

  /** A mapping of a port's job to a forwarding lcore. */
  predicate Forwards(m: Mapping, p: nat, j: nat, stat: nat) {
    m.port == p && m.job == j && m.lcore != stat
  }

  predicate LastForward(ms: seq<Mapping>, i: nat, p: nat, j: nat, stat: nat) {
    i < |ms| && Forwards(ms[i], p, j, stat) && forall h :: i < h < |ms| ==> !Forwards(ms[h], p, j, stat)
  }

  predicate NoneForwards(ms: seq<Mapping>, p: nat, j: nat, stat: nat) {
    forall i :: 0 <= i < |ms| ==> !Forwards(ms[i], p, j, stat)
  }

  /** The last mapping of a queue decides its entry. */
  lemma {:induction false} LastDecides(ms: seq<Mapping>, i: nat, p: nat, j: nat, stat: nat, before: nat)
    requires LastForward(ms, i, p, j, stat)
    ensures LcoreOf(ms, p, j, stat, before) == ms[i].lcore
    decreases |ms|
  {
    var n := |ms| - 1;
    if i < n { LastDecides(ms[..n], i, p, j, stat, before); }
  }

  /** Without one it stays as it was. */
  lemma {:induction false} NoneDecides(ms: seq<Mapping>, p: nat, j: nat, stat: nat, before: nat)
    requires NoneForwards(ms, p, j, stat)
    ensures LcoreOf(ms, p, j, stat, before) == before
    decreases |ms|
  {
    if ms != [] { NoneDecides(ms[..|ms| - 1], p, j, stat, before); }
  }

  /** A configured mapping that would be valid for a queue of an enabled port. */
  predicate Applies(m: Mapping, p: nat, j: nat, lcores: set<nat>, stat: nat) {
    m.port == p && m.job == j && m.lcore in lcores && m.lcore != stat
  }

  /** The first of those. */
  predicate Decides(ms: seq<Mapping>, i: nat, p: nat, j: nat, lcores: set<nat>, stat: nat) {
    i < |ms| && Applies(ms[i], p, j, lcores, stat) && forall h :: 0 <= h < i ==> !Applies(ms[h], p, j, lcores, stat)
  }

  predicate NoneApplies(ms: seq<Mapping>, p: nat, j: nat, lcores: set<nat>, stat: nat) {
    forall i :: 0 <= i < |ms| ==> !Applies(ms[i], p, j, lcores, stat)
  }

  lemma DecidedEntry(ms: seq<Mapping>, e: Env, p: nat, j: nat, i: nat)
    requires |Kept(ms, e, |ms|)| <= MAX_LCORE_PARAMS && IsEnv(e)
    requires p < |e.enabled| && e.enabled[p] && Decides(ms, i, p, j, e.lcores, e.stat)
    ensures LcoreOf(Checked(ms, e), p, j, e.stat, RTE_MAX_LCORE) == ms[i].lcore
  {
    var l := ms[i].lcore;
    assert Good(ms[i], e);
    assert IsFirst(ms, e, i);
    KeptAre(ms, e, |ms|);
    var f := Firsts(ms, e, |ms|);
    assert i in f;
    var a :| 0 <= a < |f| && f[a] == i;
    assert Checked(ms, e)[a] == Kept(ms, e, |ms|)[a] == Mapping(p, j, l);
    AssignedIff(Checked(ms, e), l, j, p);
    IndexesAreInverse(ms, e, p, j, l);
  }

  lemma UndecidedEntry(ms: seq<Mapping>, e: Env, p: nat, j: nat)
    requires |Kept(ms, e, |ms|)| <= MAX_LCORE_PARAMS
    requires NoneApplies(ms, p, j, e.lcores, e.stat)
    ensures LcoreOf(Checked(ms, e), p, j, e.stat, RTE_MAX_LCORE) == RTE_MAX_LCORE
  {
    var ks, cs := Kept(ms, e, |ms|), Checked(ms, e);
    KeptOnePerQueue(ms, e, |ms|);
    forall i | 0 <= i < |cs| ensures !Forwards(cs[i], p, j, e.stat) {
      if i < |ks| { assert cs[i] == ks[i] && Good(ks[i], e) && ks[i] in ms; }
    }
    NoneDecides(cs, p, j, e.stat, RTE_MAX_LCORE);
  }

  // ---- when the tables are large enough ------------------------------------------------------

  ghost predicate Fits(ms: seq<Mapping>) {
    forall l: nat, j: nat :: |Assigned(ms, l, j)| <= MAX_PORT_PER_JOB
  }

  lemma {:induction false} AssignedGrows(ms: seq<Mapping>, n: nat, l: nat, j: nat)
    requires n <= |ms|
    ensures |Assigned(ms[..n], l, j)| <= |Assigned(ms, l, j)|
    decreases |ms|
  {
    if n < |ms| {
      AssignedGrows(ms[..|ms| - 1], n, l, j);
      assert ms[..|ms| - 1][..n] == ms[..n];
    } else {
      assert ms[..n] == ms;
    }
  }

  lemma Overfull(ms: seq<Mapping>, n: nat)
    requires n < |ms| && |Assigned(ms[..n], ms[n].lcore, ms[n].job)| >= MAX_PORT_PER_JOB
    ensures !Fits(ms)
  {
    var l, j := ms[n].lcore, ms[n].job;
    assert ms[..n + 1][..n] == ms[..n];
    assert |Assigned(ms[..n + 1], l, j)| > MAX_PORT_PER_JOB;
    AssignedGrows(ms, n + 1, l, j);
  }

  lemma {:induction false} AssignedConcat(xs: seq<Mapping>, ys: seq<Mapping>, l: nat, j: nat)
    ensures Assigned(xs + ys, l, j) == Assigned(xs, l, j) + Assigned(ys, l, j)
    decreases |ys|
  {
    if ys == [] {
      assert xs + ys == xs;
    } else {
      var n := |ys| - 1;
      AssignedConcat(xs, ys[..n], l, j);
      assert (xs + ys)[..|xs + ys| - 1] == xs + ys[..n];
    }
  }

  lemma {:induction false} StatAssigned(ports: seq<nat>, stat: nat, l: nat, j: nat)
    ensures Assigned(StatJobs(ports, stat), l, j) == if l == stat && j == LCORE_JOB_TX then ports else []
    decreases |ports|
  {
    if ports != [] {
      var n := |ports| - 1;
      StatAssigned(ports[..n], stat, l, j);
      assert StatJobs(ports, stat)[..n] == StatJobs(ports[..n], stat);
      assert ports == ports[..n] + [ports[n]];
    }
  }

  lemma {:induction false} NoneForStat(ks: seq<Mapping>, stat: nat, j: nat)
    requires forall k :: 0 <= k < |ks| ==> ks[k].lcore != stat
    ensures Assigned(ks, stat, j) == []
    decreases |ks|
  {
    if ks != [] { NoneForStat(ks[..|ks| - 1], stat, j); }
  }

  /** The job lists are those of the kept mappings and, for the statistics lcore, the
      measurement jobs. */
  lemma ListInParts(ks: seq<Mapping>, ps: seq<nat>, stat: nat, l: nat, j: nat)
    requires forall k :: 0 <= k < |ks| ==> ks[k].lcore != stat
    ensures Assigned(ks + StatJobs(ps, stat), l, j) ==
      if l == stat && j == LCORE_JOB_TX then ps else Assigned(ks, l, j)
    ensures l == stat ==> Assigned(ks, l, j) == []
  {
    AssignedConcat(ks, StatJobs(ps, stat), l, j);
    StatAssigned(ps, stat, l, j);
    if l == stat { NoneForStat(ks, stat, j); }
  }

  lemma NotForStat(ms: seq<Mapping>, e: Env)
    ensures forall k :: 0 <= k < |Kept(ms, e, |ms|)| ==> Kept(ms, e, |ms|)[k].lcore != e.stat
  {
    KeptOnePerQueue(ms, e, |ms|);
    var ks := Kept(ms, e, |ms|);
    forall k | 0 <= k < |ks| ensures ks[k].lcore != e.stat { assert Good(ks[k], e); }
  }

  lemma FitsInParts(ms: seq<Mapping>, e: Env)
    requires |Kept(ms, e, |ms|)| <= MAX_LCORE_PARAMS
    ensures Fits(Checked(ms, e)) <==> Fits(Kept(ms, e, |ms|)) && StatCount(ms, e) <= MAX_PORT_PER_JOB
  {
    CheckedParts(ms, e);
    NotForStat(ms, e);
    FitsByParts(Kept(ms, e, |ms|), AllEnabled(e)[..StatCount(ms, e)], e.stat);
  }

  lemma FitsByParts(ks: seq<Mapping>, ps: seq<nat>, stat: nat)
    requires forall k :: 0 <= k < |ks| ==> ks[k].lcore != stat
    ensures Fits(ks + StatJobs(ps, stat)) <==> Fits(ks) && |ps| <= MAX_PORT_PER_JOB
  {
    var cs := ks + StatJobs(ps, stat);
    ListInParts(ks, ps, stat, stat, LCORE_JOB_TX);
    if Fits(cs) {
      assert |Assigned(cs, stat, LCORE_JOB_TX)| <= MAX_PORT_PER_JOB;
      forall l: nat, j: nat ensures |Assigned(ks, l, j)| <= MAX_PORT_PER_JOB {
        ListInParts(ks, ps, stat, l, j);
        assert |Assigned(cs, l, j)| <= MAX_PORT_PER_JOB;
      }
    }
    if Fits(ks) && |ps| <= MAX_PORT_PER_JOB {
      forall l: nat, j: nat ensures |Assigned(cs, l, j)| <= MAX_PORT_PER_JOB {
        ListInParts(ks, ps, stat, l, j);
        assert |Assigned(ks, l, j)| <= MAX_PORT_PER_JOB;
      }
    }
  }

  function Elements(s: seq<nat>): (r: set<nat>)
    ensures |r| <= |s| && forall x :: x in s ==> x in r
  {
    if s == [] then {} else Elements(s[..|s| - 1]) + {s[|s| - 1]}
  }

  lemma {:induction false} DistinctBound(s: seq<nat>, r: set<nat>)
    requires forall a, b :: 0 <= a < b < |s| ==> s[a] != s[b]
    requires forall a :: 0 <= a < |s| ==> s[a] in r
    ensures |s| <= |r|
    decreases |s|
  {
    if s != [] {
      var n := |s| - 1;
      DistinctBound(s[..n], r - {s[n]});
    }
  }

  /** No lcore is given more kept mappings for a job than there are enabled ports. */
  lemma AssignedBound(ms: seq<Mapping>, e: Env, l: nat, j: nat)
    ensures |Assigned(Kept(ms, e, |ms|), l, j)| <= |AllEnabled(e)|
  {
    var ks := Kept(ms, e, |ms|);
    KeptOnePerQueue(ms, e, |ms|);
    EnabledAre(e.enabled, |e.enabled|);
    if l == e.stat {
      forall k | 0 <= k < |ks| ensures ks[k].lcore != e.stat { assert Good(ks[k], e); }
      NoneForStat(ks, e.stat, j);
    } else {
      var ports := Assigned(ks, l, j);
      AssignedOnce(ks, e.stat, l, j);
      forall a | 0 <= a < |ports| ensures ports[a] in Elements(AllEnabled(e)) {
        AssignedIff(ks, l, j, ports[a]);
        var k :| 0 <= k < |ks| && ks[k] == Mapping(ports[a], j, l);
        assert Good(ks[k], e);
      }
      DistinctBound(ports, Elements(AllEnabled(e)));
    }
  }

  /** The job lists are long enough exactly when at most four ports are enabled, since
      each takes a place in the transmit job of the statistics lcore, or when kept
      mappings crowd out all but four of those jobs and are few enough for each lcore. */
  lemma FitsIff(ms: seq<Mapping>, e: Env)
    requires |Kept(ms, e, |ms|)| <= MAX_LCORE_PARAMS && AreJobs(ms)
    ensures Fits(Checked(ms, e)) <==>
            || |AllEnabled(e)| <= MAX_PORT_PER_JOB
            || (|Kept(ms, e, |ms|)| >= MAX_LCORE_PARAMS - MAX_PORT_PER_JOB && Fits(Kept(ms, e, |ms|)))
  {
    FitsInParts(ms, e);
    KeptBound(ms, e, |ms|);
    if |AllEnabled(e)| <= MAX_PORT_PER_JOB {
      forall l: nat, j: nat ensures |Assigned(Kept(ms, e, |ms|), l, j)| <= MAX_PORT_PER_JOB {
        AssignedBound(ms, e, l, j);
      }
    }
  }

  /** With at most 61 ports enabled their number alone decides, whatever is configured. */
  lemma FitsByCount(ms: seq<Mapping>, e: Env)
    requires AreJobs(ms) && 2 * |AllEnabled(e)| < MAX_LCORE_PARAMS - MAX_PORT_PER_JOB
    ensures Fits(Checked(ms, e)) <==> |AllEnabled(e)| <= MAX_PORT_PER_JOB
  {
    KeptBound(ms, e, |ms|);
    FitsIff(ms, e);
  }

  // ---- the tables ------------------------------------------------------------------------------

  lemma {:induction false} AndPow2(x: nat, i: nat)
    ensures B.And(x, B.Pow2(i)) != 0 <==> B.Bit(x, i)
    decreases i
  {
    if i > 0 {
      AndPow2(x / 2, i - 1);
    } else {
      assert B.Pow2(0) == 1;
    }
  }

  /** The port list of src/port.c. */
  class Ports {
    const id: array<nat>
    const isEnabled: array<bool>
    const lcoreMap: array2<nat>

    ghost predicate Valid() {
      id.Length == isEnabled.Length == lcoreMap.Length0 && lcoreMap.Length1 == LCORE_JOB_MAX
    }

    /** The allocated and zeroed list. */
    constructor (nb: nat)
      ensures Valid() && isEnabled.Length == nb
      ensures fresh(id) && fresh(isEnabled) && fresh(lcoreMap)
      ensures forall p :: 0 <= p < nb ==> !isEnabled[p] && id[p] == 0
      ensures forall p, j | 0 <= p < nb && 0 <= j < LCORE_JOB_MAX :: lcoreMap[p, j] == 0
    {
      id := new nat[nb](_ => 0);
      isEnabled := new bool[nb](_ => false);
      lcoreMap := new nat[nb, LCORE_JOB_MAX]((_, _) => 0);
    }

    /** port_parse_opt after its allocation. */
    method ParseOpt(mask: nat) returns (enabledPorts: nat)
      requires Valid() && isEnabled.Length <= 64
      requires forall p :: 0 <= p < isEnabled.Length ==> !isEnabled[p]
      modifies id, isEnabled, lcoreMap
      ensures forall p :: 0 <= p < isEnabled.Length ==> isEnabled[p] == B.Bit(mask, p)
      ensures forall p :: 0 <= p < isEnabled.Length ==> id[p] == if B.Bit(mask, p) then p else old(id[p])
      ensures forall p, j | 0 <= p < isEnabled.Length && 0 <= j < LCORE_JOB_MAX ::
        lcoreMap[p, j] == if isEnabled[p] then RTE_MAX_LCORE else old(lcoreMap[p, j])
      ensures enabledPorts == |EnabledPorts(isEnabled[..], isEnabled.Length)|
    {
      enabledPorts := 0;
      var i := 0;
      while i < isEnabled.Length
        invariant 0 <= i <= isEnabled.Length
        invariant forall p :: 0 <= p < isEnabled.Length ==> isEnabled[p] == (p < i && B.Bit(mask, p))
        invariant forall p :: 0 <= p < isEnabled.Length ==> id[p] == if isEnabled[p] then p else old(id[p])
        invariant forall p, j | 0 <= p < isEnabled.Length && 0 <= j < LCORE_JOB_MAX ::
          lcoreMap[p, j] == if isEnabled[p] then RTE_MAX_LCORE else old(lcoreMap[p, j])
        invariant enabledPorts == |EnabledPorts(isEnabled[..], i)|
      {
        AndPow2(mask, i);
        ghost var was := isEnabled[..];
        if B.And(mask, B.Pow2(i)) != 0 {
          Enable(i);
          enabledPorts := enabledPorts + 1;
        }
        SameEnabled(was, isEnabled[..], i);
        i := i + 1;
      }
    }

    method Enable(i: nat)
      requires Valid() && i < isEnabled.Length
      modifies id, isEnabled, lcoreMap
      ensures isEnabled[..] == old(isEnabled[..])[i := true]
      ensures id[..] == old(id[..])[i := i]
      ensures forall p, j | 0 <= p < isEnabled.Length && 0 <= j < LCORE_JOB_MAX ::
        lcoreMap[p, j] == if p == i then RTE_MAX_LCORE else old(lcoreMap[p, j])
    {
      id[i] := i;
      isEnabled[i] := true;
      var j := 0;
      while j < LCORE_JOB_MAX
        modifies lcoreMap
        invariant 0 <= j <= LCORE_JOB_MAX
        invariant forall p, k | 0 <= p < isEnabled.Length && 0 <= k < LCORE_JOB_MAX ::
          lcoreMap[p, k] == if p == i && k < j then RTE_MAX_LCORE else old(lcoreMap[p, k])
      {
        lcoreMap[i, j] := RTE_MAX_LCORE;
        j := j + 1;
      }
    }

    /** port_update_lcore. */
    method UpdateLcore(port: nat, lcore: nat, job: nat)
      requires Valid() && port < isEnabled.Length && job < LCORE_JOB_MAX
      modifies lcoreMap
      ensures forall p, j | 0 <= p < isEnabled.Length && 0 <= j < LCORE_JOB_MAX ::
        lcoreMap[p, j] == if p == port && j == job then lcore else old(lcoreMap[p, j])
    {
      lcoreMap[port, job] := lcore;
    }
  }

  lemma {:induction false} SameEnabled(xs: seq<bool>, ys: seq<bool>, n: nat)
    requires n <= |xs| == |ys| && forall p :: 0 <= p < n ==> xs[p] == ys[p]
    ensures EnabledPorts(xs, n) == EnabledPorts(ys, n)
    decreases n
  {
    if n > 0 { SameEnabled(xs, ys, n - 1); }
  }

  /** A mapping the tables have a row for. */
  predicate InRange(m: Mapping, nbPorts: nat) {
    m.port < nbPorts && m.job < LCORE_JOB_MAX && m.lcore < RTE_MAX_LCORE
  }

  /** The job lists of the lcores, and the ports. */
  class Sender {
    const nbPorts: array2<nat>
    const portList: array3<nat>
    const ports: Ports
    const stat: nat

    ghost predicate Valid() {
      && ports.Valid() && nbPorts != ports.lcoreMap
      && nbPorts.Length0 == portList.Length0 == RTE_MAX_LCORE
      && nbPorts.Length1 == portList.Length1 == LCORE_JOB_MAX
      && portList.Length2 == MAX_PORT_PER_JOB
    }

    constructor (ports: Ports, stat: nat)
      requires ports.Valid()
      ensures Valid() && this.ports == ports && this.stat == stat && fresh(nbPorts) && fresh(portList)
      ensures HasJobs([])
    {
      nbPorts := new nat[RTE_MAX_LCORE, LCORE_JOB_MAX]((_, _) => 0);
      portList := new nat[RTE_MAX_LCORE, LCORE_JOB_MAX, MAX_PORT_PER_JOB]((_, _, _) => 0);
      this.ports, this.stat := ports, stat;
    }

    ghost predicate IsList(l: nat, j: nat, s: seq<nat>)
      requires Valid() && l < RTE_MAX_LCORE && j < LCORE_JOB_MAX
      reads nbPorts, portList
    {
      nbPorts[l, j] == |s| <= MAX_PORT_PER_JOB && forall k :: 0 <= k < |s| ==> portList[l, j, k] == s[k]
    }

    /** The job lists are those of the mappings ms. */
    ghost predicate HasJobs(ms: seq<Mapping>)
      requires Valid()
      reads nbPorts, portList
    {
      forall l, j | 0 <= l < RTE_MAX_LCORE && 0 <= j < LCORE_JOB_MAX :: IsList(l, j, Assigned(ms, l, j))
    }

    /** The port table is that of the mappings ms. */
    ghost predicate HasLcores(ms: seq<Mapping>, before: (nat, nat) -> nat)
      requires Valid()
      reads ports.lcoreMap
    {
      forall p, j | 0 <= p < ports.isEnabled.Length && 0 <= j < LCORE_JOB_MAX ::
        ports.lcoreMap[p, j] == LcoreOf(ms, p, j, stat, before(p, j))
    }

    method AddJob(m: Mapping, ghost ms: seq<Mapping>)
      requires Valid() && InRange(m, ports.isEnabled.Length) && HasJobs(ms)
      requires |Assigned(ms, m.lcore, m.job)| < MAX_PORT_PER_JOB
      modifies nbPorts, portList
      ensures HasJobs(ms + [m])
    {
      var l, j := m.lcore, m.job;
      assert IsList(l, j, Assigned(ms, l, j));
      label Before:
      var n := nbPorts[l, j];
      portList[l, j, n] := m.port;
      nbPorts[l, j] := n + 1;
      forall l', j' | 0 <= l' < RTE_MAX_LCORE && 0 <= j' < LCORE_JOB_MAX
        ensures IsList(l', j', Assigned(ms + [m], l', j'))
      {
        assert (ms + [m])[..|ms|] == ms;
        assert old@Before(IsList(l', j', Assigned(ms, l', j')));
      }
    }

    method SetLcore(m: Mapping, ghost ms: seq<Mapping>, ghost before: (nat, nat) -> nat)
      requires Valid() && InRange(m, ports.isEnabled.Length) && HasLcores(ms, before)
      modifies ports.lcoreMap
      ensures HasLcores(ms + [m], before)
    {
      assert (ms + [m])[..|ms|] == ms;
      if m.lcore != stat {
        ports.UpdateLcore(m.port, m.lcore, m.job);
      }
    }

    /** __init_lcore_port: `done` mappings are entered into both tables, all of them
        exactly when every job list is long enough. */
    method InitLcorePort(params: array<Mapping>, nb: nat, ghost before: (nat, nat) -> nat)
      returns (rc: int, ghost done: nat)
      requires Valid() && nb <= params.Length
      requires forall i :: 0 <= i < nb ==> InRange(params[i], ports.isEnabled.Length)
      requires HasJobs([])
      requires forall p, j | 0 <= p < ports.isEnabled.Length && 0 <= j < LCORE_JOB_MAX ::
        ports.lcoreMap[p, j] == before(p, j)
      modifies nbPorts, portList, ports.lcoreMap
      ensures done <= nb && HasJobs(params[..done]) && HasLcores(params[..done], before)
      ensures forall p, j, i | 0 <= p < ports.isEnabled.Length && 0 <= j < LCORE_JOB_MAX && 0 <= i < done ::
        LastForward(params[..done], i, p, j, stat) ==> ports.lcoreMap[p, j] == params[i].lcore
      ensures forall p, j | 0 <= p < ports.isEnabled.Length && 0 <= j < LCORE_JOB_MAX ::
        NoneForwards(params[..done], p, j, stat) ==> ports.lcoreMap[p, j] == before(p, j)
      ensures rc == 0 <==> Fits(params[..nb])
      ensures rc == 0 ==> done == nb
      ensures rc != 0 ==> rc == ERR_OUT_OF_RANGE && done < nb
      ensures rc != 0 ==> |Assigned(params[..done], params[done].lcore, params[done].job)| == MAX_PORT_PER_JOB
    {
      ghost var ms := params[..nb];
      var i := 0;
      done := 0;
      while i < nb
        invariant 0 <= i <= nb && done == i
        invariant HasJobs(ms[..i]) && HasLcores(ms[..i], before)
      {
        var m := params[i];
        assert m == ms[i] && ms[..i + 1] == ms[..i] + [m] && params[..i] == ms[..i];
        assert IsList(m.lcore, m.job, Assigned(ms[..i], m.lcore, m.job));
        if nbPorts[m.lcore, m.job] >= MAX_PORT_PER_JOB {
          Overfull(ms, i);
          EntriesAre(ms[..i], before);
          return ERR_OUT_OF_RANGE, i;
        }
        AddJob(m, ms[..i]);
        SetLcore(m, ms[..i], before);
        i := i + 1;
        done := i;
      }
      assert ms[..nb] == ms && params[..nb] == ms;
      AllListed(ms, nb);
      EntriesAre(ms, before);
      rc := 0;
    }

    lemma EntriesAre(ms: seq<Mapping>, before: (nat, nat) -> nat)
      requires Valid() && HasLcores(ms, before)
      ensures forall p, j, i | 0 <= p < ports.isEnabled.Length && 0 <= j < LCORE_JOB_MAX && 0 <= i < |ms| ::
        LastForward(ms, i, p, j, stat) ==> ports.lcoreMap[p, j] == ms[i].lcore
      ensures forall p, j | 0 <= p < ports.isEnabled.Length && 0 <= j < LCORE_JOB_MAX ::
        NoneForwards(ms, p, j, stat) ==> ports.lcoreMap[p, j] == before(p, j)
    {
      forall p, j, i | 0 <= p < ports.isEnabled.Length && 0 <= j < LCORE_JOB_MAX && 0 <= i < |ms|
        ensures LastForward(ms, i, p, j, stat) ==> ports.lcoreMap[p, j] == ms[i].lcore
      {
        if LastForward(ms, i, p, j, stat) { LastDecides(ms, i, p, j, stat, before(p, j)); }
      }
      forall p, j | 0 <= p < ports.isEnabled.Length && 0 <= j < LCORE_JOB_MAX
        ensures NoneForwards(ms, p, j, stat) ==> ports.lcoreMap[p, j] == before(p, j)
      {
        if NoneForwards(ms, p, j, stat) { NoneDecides(ms, p, j, stat, before(p, j)); }
      }
    }

    lemma AllListed(ms: seq<Mapping>, nb: nat)
      requires Valid() && HasJobs(ms) && |ms| == nb
      requires forall i :: 0 <= i < nb ==> InRange(ms[i], ports.isEnabled.Length)
      ensures Fits(ms)
    {
      forall l: nat, j: nat
        ensures |Assigned(ms, l, j)| <= MAX_PORT_PER_JOB
      {
        if l < RTE_MAX_LCORE && j < LCORE_JOB_MAX {
          assert IsList(l, j, Assigned(ms, l, j));
        } else {
          NoneOutside(ms, l, j);
        }
      }
    }
  }

  lemma {:induction false} NoneOutside(ms: seq<Mapping>, l: nat, j: nat)
    requires forall i :: 0 <= i < |ms| ==> ms[i].lcore < RTE_MAX_LCORE && ms[i].job < LCORE_JOB_MAX
    requires l >= RTE_MAX_LCORE || j >= LCORE_JOB_MAX
    ensures Assigned(ms, l, j) == []
    decreases |ms|
  {
    if ms != [] { NoneOutside(ms[..|ms| - 1], l, j); }
  }

  // ---- the set-up as a whole ------------------------------------------------------------------

  /** The index of a job list and the port table agree: on the lcores that forward, a
      port is listed exactly where its table entry says, and only once. */
  ghost predicate Agree(s: Sender, ms: seq<Mapping>)
    requires s.Valid()
    reads s.nbPorts, s.portList, s.ports.lcoreMap, s.ports.isEnabled
  {
    forall l, j | 0 <= l < RTE_MAX_LCORE && l != s.stat && 0 <= j < LCORE_JOB_MAX ::
      && s.IsList(l, j, Assigned(ms, l, j))
      && (forall p | 0 <= p < s.ports.isEnabled.Length && s.ports.isEnabled[p] ::
           p in Assigned(ms, l, j) <==> s.ports.lcoreMap[p, j] == l)
      && (forall a, b :: 0 <= a < b < |Assigned(ms, l, j)| ==> Assigned(ms, l, j)[a] != Assigned(ms, l, j)[b])
  }

  /** The entries of the port table, said of the configured mappings: an enabled port's is
      that of the first mapping that applies to the queue, or 128 for none; a port not
      enabled has zeros. */
  ghost predicate EntriesFor(s: Sender, ms: seq<Mapping>, enabled: seq<bool>, lcores: set<nat>)
    requires s.Valid() && |enabled| == s.ports.isEnabled.Length
    reads s.ports.lcoreMap
  {
    && (forall p, j, i | 0 <= p < |enabled| && 0 <= j < 2 && 0 <= i < |ms| ::
         enabled[p] && Decides(ms, i, p, j, lcores, s.stat) ==> s.ports.lcoreMap[p, j] == ms[i].lcore)
    && (forall p, j | 0 <= p < |enabled| && 0 <= j < 2 ::
         enabled[p] && NoneApplies(ms, p, j, lcores, s.stat) ==> s.ports.lcoreMap[p, j] == 128)
    && (forall p, j | 0 <= p < |enabled| && 0 <= j < 2 :: !enabled[p] ==> s.ports.lcoreMap[p, j] == 0)
  }

  lemma EntriesFollow(s: Sender, ms: seq<Mapping>, e: Env, before: (nat, nat) -> nat)
    requires IsEnv(e) && s.Valid() && s.stat == e.stat && s.ports.isEnabled.Length == |e.enabled|
    requires |Kept(ms, e, |ms|)| <= MAX_LCORE_PARAMS && s.HasLcores(Checked(ms, e), before)
    requires forall p: nat, j: nat :: before(p, j) == if p < |e.enabled| && e.enabled[p] then RTE_MAX_LCORE else 0
    ensures EntriesFor(s, ms, e.enabled, e.lcores)
  {
    forall p, j, i | 0 <= p < |e.enabled| && 0 <= j < 2 && 0 <= i < |ms|
      ensures e.enabled[p] && Decides(ms, i, p, j, e.lcores, e.stat) ==> s.ports.lcoreMap[p, j] == ms[i].lcore
    {
      if e.enabled[p] && Decides(ms, i, p, j, e.lcores, e.stat) { DecidedEntry(ms, e, p, j, i); }
    }
    forall p, j | 0 <= p < |e.enabled| && 0 <= j < 2
      ensures e.enabled[p] && NoneApplies(ms, p, j, e.lcores, e.stat) ==> s.ports.lcoreMap[p, j] == 128
      ensures !e.enabled[p] ==> s.ports.lcoreMap[p, j] == 0
    {
      if !e.enabled[p] { DisabledEntry(ms, e, p, j); }
      else if NoneApplies(ms, p, j, e.lcores, e.stat) { UndecidedEntry(ms, e, p, j); }
    }
  }

  lemma DisabledEntry(ms: seq<Mapping>, e: Env, p: nat, j: nat)
    requires p < |e.enabled| && !e.enabled[p]
    ensures LcoreOf(Checked(ms, e), p, j, e.stat, 0) == 0
  {
    CheckedIsExclusive(ms, e);
    NoneDecides(Checked(ms, e), p, j, e.stat, 0);
  }

  /** The statistics lcore transmits on the enabled ports, as far as they have a place,
      and receives on none. */
  lemma StatLists(ms: seq<Mapping>, e: Env)
    requires |Kept(ms, e, |ms|)| <= MAX_LCORE_PARAMS
    ensures Assigned(Checked(ms, e), e.stat, 1) == AllEnabled(e)[..StatCount(ms, e)]
    ensures Assigned(Checked(ms, e), e.stat, 0) == []
  {
    var ks, ps := Kept(ms, e, |ms|), AllEnabled(e)[..StatCount(ms, e)];
    CheckedParts(ms, e);
    NotForStat(ms, e);
    ListInParts(ks, ps, e.stat, e.stat, 0);
    ListInParts(ks, ps, e.stat, e.stat, 1);
  }

  lemma InitAgrees(s: Sender, ms: seq<Mapping>, e: Env, before: (nat, nat) -> nat)
    requires IsEnv(e) && s.Valid() && s.stat == e.stat && s.ports.isEnabled[..] == e.enabled
    requires s.HasJobs(Checked(ms, e)) && s.HasLcores(Checked(ms, e), before)
    requires forall p: nat, j: nat :: p < |e.enabled| && e.enabled[p] ==> before(p, j) == RTE_MAX_LCORE
    ensures Agree(s, Checked(ms, e))
  {
    var cs := Checked(ms, e);
    CheckedIsExclusive(ms, e);
    forall l, j | 0 <= l < RTE_MAX_LCORE && l != s.stat && 0 <= j < LCORE_JOB_MAX
      ensures s.IsList(l, j, Assigned(cs, l, j))
      ensures forall p | 0 <= p < s.ports.isEnabled.Length && s.ports.isEnabled[p] ::
                p in Assigned(cs, l, j) <==> s.ports.lcoreMap[p, j] == l
      ensures forall a, b :: 0 <= a < b < |Assigned(cs, l, j)| ==> Assigned(cs, l, j)[a] != Assigned(cs, l, j)[b]
    {
      AssignedOnce(cs, e.stat, l, j);
      forall p | 0 <= p < s.ports.isEnabled.Length && s.ports.isEnabled[p]
        ensures p in Assigned(cs, l, j) <==> s.ports.lcoreMap[p, j] == l
      {
        assert e.enabled[p];
        IndexesAreInverse(ms, e, p, j, l);
      }
    }
  }

  lemma CheckedInRange(ms: seq<Mapping>, e: Env)
    requires IsEnv(e) && AreJobs(ms)
    ensures forall i :: 0 <= i < |Checked(ms, e)| ==> InRange(Checked(ms, e)[i], |e.enabled|)
  {
    CheckedIsExclusive(ms, e);
    KeptOnePerQueue(ms, e, |ms|);
    var ks, cs := Kept(ms, e, |ms|), Checked(ms, e);
    forall i | 0 <= i < |cs|
      ensures cs[i].job < LCORE_JOB_MAX
    {
      if i < |ks| { assert cs[i] == ks[i] && ks[i] in ms; }
    }
  }

  /** The ports a mask enables. */
  function InMask(mask: nat, nbPorts: nat): seq<bool> {
    seq(nbPorts, p requires 0 <= p < nbPorts => B.Bit(mask, p))
  }

  /** From the port mask to the tables, as main does it: -1 when no port is enabled. */
  method SetUp(nbPorts: nat, mask: nat, params: array<Mapping>, nb: nat, lcores: set<nat>, stat: nat)
    returns (rc: int, s: Sender, ghost e: Env)
    requires nbPorts <= 64 && params.Length == MAX_LCORE_PARAMS && nb <= MAX_LCORE_PARAMS
    requires AreJobs(params[..nb])
    requires |EnabledPorts(InMask(mask, nbPorts), nbPorts)| < 64 || lcores <= {stat}
    requires stat < RTE_MAX_LCORE && forall l :: l in lcores ==> l < RTE_MAX_LCORE
    modifies params
    ensures s.Valid() && s.stat == stat && e.lcores == lcores && e.stat == stat
    ensures s.ports.isEnabled.Length == nbPorts && s.ports.isEnabled[..] == e.enabled == InMask(mask, nbPorts)
    ensures rc == -1 <==> AllEnabled(e) == []
    ensures rc == 0 <==> AllEnabled(e) != [] && Fits(Checked(old(params[..nb]), e))
    ensures |AllEnabled(e)| <= 61 ==> (rc == 0 <==> 1 <= |AllEnabled(e)| <= MAX_PORT_PER_JOB)
    ensures rc == 0 ==> s.HasJobs(Checked(old(params[..nb]), e)) && Agree(s, Checked(old(params[..nb]), e))
    ensures rc == 0 ==> EntriesFor(s, old(params[..nb]), InMask(mask, nbPorts), lcores)
    ensures rc == 0 ==> s.IsList(stat, 0, []) && s.IsList(stat, 1, AllEnabled(e)[..StatCount(old(params[..nb]), e)])
  {
    var ports := new Ports(nbPorts);
    s := new Sender(ports, stat);
    var nbEnabled := ports.ParseOpt(mask);
    e := Env(ports.isEnabled[..], lcores, stat);
    assert e.enabled == InMask(mask, nbPorts);
    if nbEnabled < 1 {
      return -1, s, e;
    }
    ghost var ms := params[..nb];
    RoomFor(ms, e);
    if |AllEnabled(e)| <= 61 { FitsByCount(ms, e); }
    rc := FillTables(s, params, nb, Env(ports.isEnabled[..], lcores, stat));
    if rc == 0 { StatListed(s, ms, e); }
  }

  lemma StatListed(s: Sender, ms: seq<Mapping>, e: Env)
    requires s.Valid() && s.stat == e.stat < RTE_MAX_LCORE && |Kept(ms, e, |ms|)| <= MAX_LCORE_PARAMS
    requires s.HasJobs(Checked(ms, e))
    ensures s.IsList(e.stat, 0, []) && s.IsList(e.stat, 1, AllEnabled(e)[..StatCount(ms, e)])
  {
    StatLists(ms, e);
    assert s.IsList(e.stat, 0, Assigned(Checked(ms, e), e.stat, 0));
    assert s.IsList(e.stat, 1, Assigned(Checked(ms, e), e.stat, 1));
  }

  /** The part of main from the check on. */
  method FillTables(s: Sender, params: array<Mapping>, nb: nat, e: Env) returns (rc: int)
    requires s.Valid() && IsEnv(e) && s.stat == e.stat && s.ports.isEnabled[..] == e.enabled
    requires params.Length == MAX_LCORE_PARAMS && nb <= MAX_LCORE_PARAMS && AreJobs(params[..nb])
    requires |Kept(params[..nb], e, nb)| < MAX_LCORE_PARAMS
    requires s.HasJobs([]) && forall p, j | 0 <= p < |e.enabled| && 0 <= j < LCORE_JOB_MAX ::
      s.ports.lcoreMap[p, j] == if e.enabled[p] then RTE_MAX_LCORE else 0
    modifies params, s.nbPorts, s.portList, s.ports.lcoreMap
    ensures rc == 0 || rc == ERR_OUT_OF_RANGE
    ensures rc == 0 <==> Fits(Checked(old(params[..nb]), e))
    ensures rc == 0 ==> s.HasJobs(Checked(old(params[..nb]), e)) && Agree(s, Checked(old(params[..nb]), e))
    ensures rc == 0 ==> EntriesFor(s, old(params[..nb]), e.enabled, e.lcores)
  {
    ghost var ms := params[..nb];
    var cnt := CheckMapping(params, nb, e);
    ghost var cs := Checked(ms, e);
    CheckedInRange(ms, e);
    assert forall i :: 0 <= i < cnt ==> params[i] == cs[i];
    ghost var done;
    ghost var before := (p: nat, j: nat) => if p < |e.enabled| && e.enabled[p] then RTE_MAX_LCORE else 0;
    rc, done := s.InitLcorePort(params, cnt, before);
    if rc == 0 {
      InitAgrees(s, ms, e, before);
      EntriesFollow(s, ms, e, before);
    }
  }
}
