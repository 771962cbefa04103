/**
 What the callers of the RTP port allocator see: which port a call returns,
 when the ports of a run stay in the range, and in what order ports come back.
 */
module RtpRuns {
  import opened RtpPorts

  // ---------------------------------------------------------------- what one call returns

  /**
   A call makes up to last - start attempts, each at a different port.  A port
   is returned exactly when one of them finds its port idle, and it is the
   first that does; a result of 0 means that last - start different ports were
   all busy.  The busy ones are kept in the busy list.
   */
  lemma WhatGetReturns(s: System, probe: Probe)
    requires Partitioned(s)
    ensures var p := s.pool;
      var (port, p') := GetPort(p, probe);
      var attempts := if p.last > p.start then p.last - p.start else 0;
      && NoDuplicates(Tried(p, attempts))
      && p'.busy <= Tried(p, attempts)
      && (forall j :: 0 <= j < |p'.busy| ==> probe(j, p'.busy[j]))
      && (port == 0 <==> |p'.busy| == attempts)
      && (port != 0 ==>
           var k := |p'.busy|;
           k < attempts && port == Candidate(p, k) && !probe(k, port))
  {
    var p := s.pool;
    PartitionedIsPositive(s);
    GetConserves(p, probe);
    TriedSplits(p, Attempts(p), 0);
    hide GetPort;
    hide Candidate;
    hide Taken;
    hide OnHand;
    var next' := Taken(p, Attempts(p), 0).next;
    FreshIsNew(s, next');
    var all := OnHand(p) + Fresh(p.next, next');
    forall i, j | 0 <= i < j < Attempts(p)
      ensures Tried(p, Attempts(p))[i] != Tried(p, Attempts(p))[j]
    {
      assert Tried(p, Attempts(p))[i] == all[i] && Tried(p, Attempts(p))[j] == all[j];
    }
  }

  /**
   A freshly generated port is start + 2 * (ports handed out + ports found busy
   in this call), so it lies within the range exactly while that load is at
   most half the range: the code bounds the attempts, not the counter.
   */
  lemma FreshPortShowsTheLoad(s: System, i: nat)
    requires Partitioned(s) && i >= |OnHand(s.pool)|
    ensures Candidate(s.pool, i) == s.pool.start + 2 * (|s.outstanding| + i)
    ensures Candidate(s.pool, i) <= s.pool.last
       <==> 2 * (|s.outstanding| + i) <= s.pool.last - s.pool.start
  {
    CountPorts(s);
  }

  /** A fresh port that a call returns is in the range exactly while the load is at most half of it. */
  lemma FreshReturnedInRangeIff(s: System, probe: Probe)
    requires Partitioned(s) && GetPort(s.pool, probe).0 != 0
    ensures var (port, p') := GetPort(s.pool, probe);
      |p'.busy| >= |OnHand(s.pool)| ==>
      (port <= s.pool.last <==> 2 * (|s.outstanding| + |p'.busy|) <= s.pool.last - s.pool.start)
  {
    hide Partitioned;
    hide Candidate;
    hide GetPort;
    hide OnHand;
    WhatGetReturns(s, probe);
    var (port, p') := GetPort(s.pool, probe);
    if |p'.busy| >= |OnHand(s.pool)| {
      FreshPortShowsTheLoad(s, |p'.busy|);
    }
  }

  /** Every attempt before number `k` finds its port busy, and no other does. */
  function BusyBefore(k: nat): Probe {
    (i: nat, port: int) => i < k
  }

  lemma {:induction false} BusyBeforeFinds(p: Pool, k: nat, i: nat)
    requires PositivePorts(p) && i <= k < Attempts(p)
    ensures FirstIdle(p, BusyBefore(k), i) == k
    decreases k - i
  {
    hide Candidate;
    CandidatePositive(p, i);
    if i < k { BusyBeforeFinds(p, k, i + 1); }
  }

  /**
   Whatever the probes say, the next call stays in the range exactly when the
   ports on hand that it can reach do and, if it can get beyond these, the load
   it can reach is at most half the range.
   */
  lemma NextPortInRangeIff(s: System)
    requires Partitioned(s)
    ensures var p := s.pool;
      (forall probe :: GetPort(p, probe).0 == 0 || GetPort(p, probe).0 <= p.last)
      <==>
      && (forall i :: 0 <= i < |OnHand(p)| && i < Attempts(p) ==> OnHand(p)[i] <= p.last)
      && (Attempts(p) > |OnHand(p)| ==> 2 * (|s.outstanding| + Attempts(p) - 1) <= p.last - p.start)
  {
    var p := s.pool;
    PartitionedIsPositive(s);
    CandidatesInRangeIff(s);
    hide Partitioned;
    hide PositivePorts;
    hide Candidate;
    if forall i :: 0 <= i < Attempts(p) ==> Candidate(p, i) <= p.last {
      forall probe
        ensures GetPort(p, probe).0 == 0 || GetPort(p, probe).0 <= p.last
      {
      }
    } else {
      var k :| 0 <= k < Attempts(p) && Candidate(p, k) > p.last;
      BusyBeforeFinds(p, k, 0);
      CandidatePositive(p, k);
      assert GetPort(p, BusyBefore(k)).0 == Candidate(p, k);
    }
  }

  /** All the ports that a call can try, in terms of what is known before it. */
  lemma CandidatesInRangeIff(s: System)
    requires Partitioned(s)
    ensures var p := s.pool;
      (forall i :: 0 <= i < Attempts(p) ==> Candidate(p, i) <= p.last)
      <==>
      && (forall i :: 0 <= i < |OnHand(p)| && i < Attempts(p) ==> OnHand(p)[i] <= p.last)
      && (Attempts(p) > |OnHand(p)| ==> 2 * (|s.outstanding| + Attempts(p) - 1) <= p.last - p.start)
  {
    var p := s.pool;
    var n, t := |OnHand(p)|, Attempts(p);
    forall i: nat | i >= n
      ensures Candidate(p, i) == p.start + 2 * (|s.outstanding| + i)
    {
      FreshPortShowsTheLoad(s, i);
    }
    hide Partitioned;
    hide OnHand;
    if forall i :: 0 <= i < t ==> Candidate(p, i) <= p.last {
      if t > n { assert Candidate(p, t - 1) <= p.last; }
      forall i | 0 <= i < n && i < t
        ensures OnHand(p)[i] <= p.last
      {
        assert Candidate(p, i) <= p.last;
      }
    }
  }

  // ---------------------------------------------------------------- the range, over runs

  /** How many ports a call tries. */
  function TriedCount(p: Pool, probe: Probe): nat {
    var k := FirstIdle(p, probe, 0);
    if k < Attempts(p) then k + 1 else k
  }

  /** Every port generated so far lies in the range. */
  ghost predicate AllInRange(s: System) {
    forall x :: x in Generated(s.pool.start, s.pool.next) ==> x <= s.pool.last
  }

  /** Whenever a call goes beyond the ports on hand, the load it reaches is at most half the range. */
  ghost predicate LoadFits(s: System, calls: seq<Call>)
    decreases |calls|
  {
    calls == [] ||
    ((calls[0].Get? ==>
        var t := TriedCount(s.pool, calls[0].probe);
        t > |OnHand(s.pool)| ==> 2 * (|s.outstanding| + t - 1) <= s.pool.last - s.pool.start)
      && LoadFits(Step(s, calls[0]), calls[1..]))
  }

  /** Only the newest port matters. */
  lemma AllInRangeIffNewest(s: System)
    requires Partitioned(s)
    ensures AllInRange(s) <==> s.pool.next == s.pool.start || s.pool.next - 2 <= s.pool.last
  {
    var p := s.pool;
    if p.next > p.start {
      assert OnGrid(p.start, p.next - 2);
      assert p.next - 2 in Generated(p.start, p.next);
      forall x | x in Generated(p.start, p.next)
        ensures x <= p.next - 2
      {
        assert OnGrid(p.start, x);
      }
    } else {
      assert Generated(p.start, p.next) == {};
    }
  }

  /** What one call does to the counter. */
  lemma CounterAfterGet(s: System, probe: Probe)
    requires Partitioned(s)
    ensures var t := TriedCount(s.pool, probe);
      GetPort(s.pool, probe).1.next
      == if t > |OnHand(s.pool)| then s.pool.start + 2 * (|s.outstanding| + t) else s.pool.next
  {
    CountPorts(s);
  }

  /** One call keeps all ports in the range exactly when the load it reaches fits. */
  lemma GetInRangeIff(s: System, probe: Probe)
    requires Partitioned(s) && AllInRange(s)
    ensures var t := TriedCount(s.pool, probe);
      AllInRange(GetStep(s, probe))
      <==> (t > |OnHand(s.pool)| ==> 2 * (|s.outstanding| + t - 1) <= s.pool.last - s.pool.start)
  {
    hide Partitioned;
    hide AllInRange;
    hide GetPort;
    hide TriedCount;
    AllInRangeIffNewest(s);
    StepKeepsPartition(s, Get(probe));
    AllInRangeIffNewest(GetStep(s, probe));
    CounterAfterGet(s, probe);
    CounterStartsAtStart(s);
  }

  lemma CounterStartsAtStart(s: System)
    requires Partitioned(s)
    ensures s.pool.next >= s.pool.start
  {
  }

  /** A port that has left the range is never forgotten. */
  lemma {:induction false} OutOfRangeStays(s: System, calls: seq<Call>)
    requires Partitioned(s) && ValidRun(s, calls) && !AllInRange(s)
    ensures !AllInRange(Run(s, calls))
    decreases |calls|
  {
    hide Partitioned;
    hide AllInRange;
    hide GetPort;
    if calls != [] {
      var s' := Step(s, calls[0]);
      StepKeepsPartition(s, calls[0]);
      AllInRangeIffNewest(s);
      AllInRangeIffNewest(s');
      CounterStartsAtStart(s);
      if calls[0].Get? {
        PartitionedIsPositive(s);
        GetConserves(s.pool, calls[0].probe);
      }
      OutOfRangeStays(s', calls[1..]);
    }
  }

  lemma {:induction false} RunInRangeFrom(s: System, calls: seq<Call>)
    requires Partitioned(s) && ValidRun(s, calls) && AllInRange(s)
    ensures AllInRange(Run(s, calls)) <==> LoadFits(s, calls)
    decreases |calls|
  {
    hide Partitioned;
    hide AllInRange;
    hide GetPort;
    hide TriedCount;
    if calls != [] {
      var s' := Step(s, calls[0]);
      StepKeepsPartition(s, calls[0]);
      if calls[0].Get? {
        GetInRangeIff(s, calls[0].probe);
      } else {
        AllInRangeIffNewest(s);
        AllInRangeIffNewest(s');
      }
      if AllInRange(s') {
        RunInRangeFrom(s', calls[1..]);
      } else {
        OutOfRangeStays(s', calls[1..]);
      }
    }
  }

  /**
   The range is kept exactly by the runs whose load fits: every port that a run
   generates, and so every port that it hands out, is at most the last port if
   and only if every call that draws fresh ports does so under a load of at
   most half the range.
   */
  lemma RunInRangeIff(start: int, last: int, calls: seq<Call>)
    requires start > 0 && ValidRun(Initially(start, last), calls)
    ensures var r := Run(Initially(start, last), calls);
      && (AllInRange(r) <==> LoadFits(Initially(start, last), calls))
      && (AllInRange(r) ==> forall x :: x in r.outstanding ==> x <= last)
  {
    hide Run;
    hide ValidRun;
    var s := Initially(start, last);
    InitiallyPartitioned(start, last);
    AllInRangeIffNewest(s);
    RunInRangeFrom(s, calls);
    RunKeepsPartition(s, calls);
    HeldWereGenerated(Run(s, calls));
  }

  lemma HeldWereGenerated(s: System)
    requires Partitioned(s)
    ensures s.outstanding <= Generated(s.pool.start, s.pool.next)
  {
  }

  // ---------------------------------------------------------------- runs on a quiet machine

  function NeverBusy(): Probe {
    (i: nat, port: int) => false
  }

  lemma {:induction false} RunThen(s: System, calls: seq<Call>, c: Call)
    ensures Run(s, calls + [c]) == Step(Run(s, calls), c)
    ensures ValidRun(s, calls + [c])
       <==> ValidRun(s, calls) && (c.Return? ==> c.port in Run(s, calls).outstanding)
    decreases |calls|
  {
    hide Step;
    if calls == [] {
      assert calls + [c] == [c] && [c][1..] == [];
    } else {
      assert (calls + [c])[1..] == calls[1..] + [c];
      RunThen(Step(s, calls[0]), calls[1..], c);
    }
  }

  /** A call on a quiet machine: the first free port or, if there is none, a fresh one. */
  lemma IdleGet(s: System)
    requires s.pool.start > 0 && s.pool.next > 0 && Attempts(s.pool) > 0 && s.pool.busy == []
    ensures var p := s.pool;
      var port := if p.free == [] then p.next else p.free[0];
      && GetPort(p, NeverBusy()).0 == port
      && (port != 0 ==> GetStep(s, NeverBusy()) == System(
           Pool(p.start, p.last, if p.free == [] then p.next + 2 else p.next,
                if p.free == [] then [] else p.free[1..], []),
           s.outstanding + {port}))
  {
    assert FirstIdle(s.pool, NeverBusy(), 0) == 0;
    assert OnHand(s.pool) == s.pool.free;
    assert Tried(s.pool, 0) == [];
  }

  /** `n` ports from an empty allocator on a quiet machine. */
  function FirstPorts(start: int, n: nat): set<int> {
    if n == 0 then {} else FirstPorts(start, n - 1) + {start + 2 * (n - 1)}
  }

  function Quiet(n: nat): seq<Call> {
    if n == 0 then [] else Quiet(n - 1) + [Get(NeverBusy())]
  }

  lemma {:induction false} QuietRun(start: int, last: int, n: nat)
    requires 0 < start < last
    ensures ValidRun(Initially(start, last), Quiet(n))
    ensures Run(Initially(start, last), Quiet(n))
         == System(Pool(start, last, start + 2 * n, [], []), FirstPorts(start, n))
  {
    if n > 0 {
      hide Run;
      hide ValidRun;
      QuietRun(start, last, n - 1);
      RunThen(Initially(start, last), Quiet(n - 1), Get(NeverBusy()));
      IdleGet(Run(Initially(start, last), Quiet(n - 1)));
    }
  }

  lemma ReleaseOne(s: System, port: int)
    requires s.pool.next > 0 && port !in s.pool.free
    ensures ReleaseStep(s, port)
         == System(s.pool.(free := s.pool.free + [port]), s.outstanding - {port})
  {
  }

  /** On the range 1000..1004 the fourth port handed out on a quiet machine is 1006. */
  lemma RangeIsExceeded()
    ensures var s := Run(Initially(1000, 1004), Quiet(3));
      && ValidRun(Initially(1000, 1004), Quiet(3))
      && s.outstanding == {1000, 1002, 1004}
      && GetPort(s.pool, NeverBusy()).0 == 1006 > s.pool.last
  {
    hide Run;
    hide ValidRun;
    QuietRun(1000, 1004, 3);
    FewPorts();
    IdleGet(Run(Initially(1000, 1004), Quiet(3)));
  }

  lemma FewPorts()
    ensures FirstPorts(1000, 2) == {1000, 1002}
    ensures FirstPorts(1000, 3) == {1000, 1002, 1004}
    ensures FirstPorts(1000, 4) == {1000, 1002, 1004, 1006}
  {
    assert FirstPorts(1000, 1) == {1000};
  }

  /** Once generated it is handed out again, although nothing else is held by then. */
  lemma ReusedPortOutOfRange()
    ensures var calls := Quiet(4) + [Return(1006)] + [Return(1000)] + [Return(1002)] + [Return(1004)];
      var s := Run(Initially(1000, 1004), calls);
      && ValidRun(Initially(1000, 1004), calls)
      && s.outstanding == {}
      && GetPort(s.pool, NeverBusy()).0 == 1006 > s.pool.last
  {
    hide Run;
    hide ValidRun;
    hide Quiet;
    var s := Initially(1000, 1004);
    QuietRun(1000, 1004, 4);
    FewPorts();
    var calls4 := Quiet(4);
    var calls5 := calls4 + [Return(1006)];
    var calls6 := calls5 + [Return(1000)];
    var calls7 := calls6 + [Return(1002)];
    RunThen(s, calls4, Return(1006));
    ReleaseOne(Run(s, calls4), 1006);
    RunThen(s, calls5, Return(1000));
    ReleaseOne(Run(s, calls5), 1000);
    RunThen(s, calls6, Return(1002));
    ReleaseOne(Run(s, calls6), 1002);
    RunThen(s, calls7, Return(1004));
    ReleaseOne(Run(s, calls7), 1004);
    var r := Run(s, calls7 + [Return(1004)]);
    assert r.pool.free == [1006, 1000, 1002, 1004];
    IdleGet(r);
  }

  // ---------------------------------------------------------------- the counter stays small

  /** At most `limit` ports are held whenever a port is asked for. */
  ghost predicate LoadAtMost(s: System, calls: seq<Call>, limit: nat)
    decreases |calls|
  {
    calls == [] ||
    ((calls[0].Get? ==> |s.outstanding| <= limit) && LoadAtMost(Step(s, calls[0]), calls[1..], limit))
  }

  lemma GetCounter(s: System, probe: Probe)
    requires Partitioned(s)
    ensures var next' := GetPort(s.pool, probe).1.next;
      next' <= s.pool.next || next' <= s.pool.start + 2 * (|s.outstanding| + Attempts(s.pool))
  {
    CountPorts(s);
  }

  /** However long the run, the counter stays below a bound set by the peak load. */
  lemma {:induction false} CounterIsBounded(s: System, calls: seq<Call>, limit: nat)
    requires Partitioned(s) && ValidRun(s, calls) && LoadAtMost(s, calls, limit)
    requires s.pool.next <= s.pool.start + 2 * (limit + Attempts(s.pool))
    ensures Run(s, calls).pool.next <= s.pool.start + 2 * (limit + Attempts(s.pool))
    decreases |calls|
  {
    hide Partitioned;
    hide GetPort;
    if calls != [] {
      StepKeepsPartition(s, calls[0]);
      if calls[0].Get? { GetCounter(s, calls[0].probe); }
      CounterIsBounded(Step(s, calls[0]), calls[1..], limit);
    }
  }

  // ---------------------------------------------------------------- order of reuse, and no range

  /** The first idle attempt is the only one that all busy attempts lead up to. */
  lemma FirstIdleIs(p: Pool, probe: Probe, k: nat)
    requires k < Attempts(p) && !PortBusy(probe, k, Candidate(p, k))
    requires forall j :: 0 <= j < k ==> PortBusy(probe, j, Candidate(p, j))
    ensures FirstIdle(p, probe, 0) == k
  {
    hide Candidate;
  }

  /** On the range 1000 to 1004, with the first two ports busy, the third attempt finds the last port. */
  lemma LastPortIsFound()
    ensures var busy: Probe := (i: nat, port: int) => port == 1000 || port == 1002;
      GetPort(Initially(1000, 1004).pool, busy).0 == 1004
  {
    var busy: Probe := (i: nat, port: int) => port == 1000 || port == 1002;
    var p := Initially(1000, 1004).pool;
    assert OnHand(p) == [];
    assert Candidate(p, 0) == 1000 && Candidate(p, 1) == 1002 && Candidate(p, 2) == 1004;
    FirstIdleIs(p, busy, 2);
  }

  /** A port that is free is not added again, so giving it back twice is giving it back once. */
  lemma ReleasedTwice(p: Pool, port: int)
    ensures port in p.free ==> Release(p, port) == p
    ensures Release(Release(p, port), port) == Release(p, port)
    ensures p.next != 0 ==> port in Release(p, port).free
    ensures |Release(p, port).free| <= |p.free| + 1
  {
  }

  /** The order in which the ports on hand are tried once `port` is back. */
  lemma CandidatesAfterRelease(s: System, port: int, i: nat)
    requires Partitioned(s) && port in s.outstanding && i <= |s.pool.free|
    ensures Candidate(Release(s.pool, port), i) == if i < |s.pool.free| then s.pool.free[i] else port
  {
    ReleaseKeepsPartition(s, port);
  }

  /**
   A released port waits behind every other free port: the next call returns it
   exactly when it can get that far, all the others are busy, and it is not.
   */
  lemma ReturnedPortIsNextIff(s: System, port: int, probe: Probe)
    requires Partitioned(s) && port in s.outstanding
    ensures var n := |s.pool.free|;
      GetPort(Release(s.pool, port), probe).0 == port <==>
      && n < s.pool.last - s.pool.start
      && (forall j :: 0 <= j < n ==> probe(j, s.pool.free[j]))
      && !probe(n, port)
  {
    var p, p', n := s.pool, Release(s.pool, port), |s.pool.free|;
    ReleaseKeepsPartition(s, port);
    PartitionedIsPositive(s);
    WhatGetReturns(ReleaseStep(s, port), probe);
    forall j: nat | j <= n
      ensures Candidate(p', j) == if j < n then p.free[j] else port
    {
      CandidatesAfterRelease(s, port, j);
    }
    hide Partitioned;
    hide Candidate;
    hide OnHand;
    if n < Attempts(p) && !PortBusy(probe, n, port) && forall j :: 0 <= j < n ==> PortBusy(probe, j, p.free[j]) {
      FirstIdleIs(p', probe, n);
    }
    if GetPort(p', probe).0 == port {
      TriedOnce(p', FirstIdle(p', probe, 0), n);
    }
  }

  /** Two attempts of one call never try the same port. */
  lemma TriedOnce(p: Pool, i: nat, j: nat)
    requires NoDuplicates(Tried(p, Attempts(p)))
    requires i < Attempts(p) && Candidate(p, i) == Candidate(p, j)
    ensures j < Attempts(p) ==> i == j
  {
    hide Candidate;
    if j < Attempts(p) {
      assert Tried(p, Attempts(p))[i] == Tried(p, Attempts(p))[j];
    }
  }

  /** Two ports are given back, 1002 and then 1000; the next call passes 1000 over. */
  lemma ReturnedPortPassedOver()
    ensures var calls := Quiet(2) + [Return(1002)] + [Return(1000)];
      var s := Run(Initially(1000, 1010), calls);
      && ValidRun(Initially(1000, 1010), calls)
      && s.pool.free == [1002, 1000]
      && GetPort(s.pool, NeverBusy()).0 == 1002
  {
    hide Run;
    hide ValidRun;
    hide Quiet;
    var s := Initially(1000, 1010);
    QuietRun(1000, 1010, 2);
    FewPorts();
    var calls2 := Quiet(2);
    var calls3 := calls2 + [Return(1002)];
    RunThen(s, calls2, Return(1002));
    ReleaseOne(Run(s, calls2), 1002);
    RunThen(s, calls3, Return(1000));
    ReleaseOne(Run(s, calls3), 1000);
    IdleGet(Run(s, calls3 + [Return(1000)]));
  }

  /** Free ports are tried before ports that were busy in the last call, and these before fresh ones. */
  lemma FreeThenBusyThenFresh(s: System, probe: Probe, i: nat)
    requires Partitioned(s) && i < Attempts(s.pool) && !PortBusy(probe, i, Candidate(s.pool, i))
    ensures var p := s.pool;
      var (port, p') := GetPort(p, probe);
      && (i < |p.free| ==> port in p.free && p'.next == p.next)
      && (i < |p.free| + |p.busy| ==> port in p.free + p.busy && p'.next == p.next)
  {
    PartitionedIsPositive(s);
    hide Partitioned;
    CandidatePositive(s.pool, FirstIdle(s.pool, probe, 0));
    assert FirstIdle(s.pool, probe, 0) <= i;
  }

  /** Without a range the system always chooses, and the allocator never changes. */
  lemma NoRangeMeansZero(p: Pool, probe: Probe, port: int)
    requires p.start == 0 && p.next == 0 && OnHand(p) == []
    ensures GetPort(p, probe) == (0, p) && Release(p, port) == p
  {
    assert p.free == [] && p.busy == [] by { assert |p.free + p.busy| == 0; }
    var k := FirstIdle(p, probe, 0);
    if 0 < Attempts(p) {
      assert !PortBusy(probe, 0, Candidate(p, 0));
    }
    assert k == 0;
    assert Tried(p, 0) == [];
  }
}
