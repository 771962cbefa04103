/**
 The RTP port allocator of CpMediaInterfaceFactoryImpl: a list of free ports, a
 list of ports found busy, and a counter from which fresh ports are drawn.
 UtlSList::insert appends at the tail, so both lists are first-in first-out.
 */
module RtpPorts {

  /** What the sockets would say: is this port busy at this attempt of the call? */
  type Probe = (nat, int) -> bool

  /** isAddressPortBusy never reports a port that the system is to choose. */
  predicate PortBusy(probe: Probe, attempt: nat, port: int) {
    port > 0 && probe(attempt, port)
  }

  datatype Pool = Pool(start: int, last: int, next: int, free: seq<int>, busy: seq<int>)

  // ---------------------------------------------------------------- what a call does

  /** MAX_PORT_CHECK_ATTEMPTS. */
  function Attempts(p: Pool): nat {
    if p.last > p.start then p.last - p.start else 0
  }

  /** The ports on hand at the start of a call, in the order they are tried. */
  function OnHand(p: Pool): seq<int> {
    p.free + p.busy
  }

  function Draw(next: int): int {
    if next > 0 then next + 2 else next
  }

  /** The counter after `m` fresh ports. */
  function Counter(next: int, m: nat): int {
    if next > 0 then next + 2 * m else next
  }

  /** The port tried at attempt `i`: first those on hand, then fresh ones. */
  function Candidate(p: Pool, i: nat): int {
    if i < |OnHand(p)| then OnHand(p)[i] else Counter(p.next, i - |OnHand(p)|)
  }

  /** The first attempt that finds an idle port, or the number of attempts. */
  function FirstIdle(p: Pool, probe: Probe, i: nat): (k: nat)
    requires i <= Attempts(p)
    ensures i <= k <= Attempts(p)
    ensures forall j :: i <= j < k ==> PortBusy(probe, j, Candidate(p, j))
    ensures k < Attempts(p) ==> !PortBusy(probe, k, Candidate(p, k))
    decreases Attempts(p) - i
  {
    if i == Attempts(p) || !PortBusy(probe, i, Candidate(p, i)) then i
    else FirstIdle(p, probe, i + 1)
  }

  /** The first `k` ports tried. */
  function Tried(p: Pool, k: nat): (t: seq<int>)
    ensures |t| == k && forall i :: 0 <= i < k ==> t[i] == Candidate(p, i)
  {
    seq(k, i requires 0 <= i < k => Candidate(p, i))
  }

  /** The pool once `k` ports were tried, the first `b` of which were busy. */
  function Taken(p: Pool, k: nat, b: nat): Pool {
    var n := |OnHand(p)|;
    Pool(p.start, p.last,
         Counter(p.next, if k > n then k - n else 0),
         if k < n then OnHand(p)[k..] else [],
         Tried(p, b))
  }

  /** One attempt of the loop: a port leaves the free list, or the counter is drawn. */
  lemma OneAttempt(p: Pool, i: nat)
    ensures var before, after := Taken(p, i, i), Taken(p, i + 1, i);
      && Candidate(p, i) == (if before.free != [] then before.free[0] else before.next)
      && after == before.(free := if before.free != [] then before.free[1..] else [],
                          next := if before.free != [] then before.next else Draw(before.next))
      && Taken(p, i + 1, i + 1) == after.(busy := after.busy + [Candidate(p, i)])
  {
    assert Tried(p, i) + [Candidate(p, i)] == Tried(p, i + 1);
    if i < |OnHand(p)| {
      assert OnHand(p)[i..][1..] == OnHand(p)[i + 1..];
    }
  }

  /** getNextRtpPort: the first idle candidate, or 0 when all attempts found busy ports. */
  function GetPort(p: Pool, probe: Probe): (int, Pool) {
    var k := FirstIdle(p, probe, 0);
    if k < Attempts(p) then (Candidate(p, k), Taken(p, k + 1, k)) else (0, Taken(p, k, k))
  }

  function Release(p: Pool, port: int): Pool {
    if p.next != 0 && port !in p.free then p.(free := p.free + [port]) else p
  }

  // ---------------------------------------------------------------- the factory

  class MediaInterfaceFactory {
    var miStartRtpPort: int
    var miLastRtpPort: int
    var miNextRtpPort: int
    var mlistFreePorts: seq<int>
    var mlistBusyPorts: seq<int>

    function State(): Pool
      reads this
    {
      Pool(miStartRtpPort, miLastRtpPort, miNextRtpPort, mlistFreePorts, mlistBusyPorts)
    }

    constructor ()
      ensures State() == Pool(0, 0, 0, [], [])
    {
      miStartRtpPort, miLastRtpPort, miNextRtpPort := 0, 0, 0;
      mlistFreePorts, mlistBusyPorts := [], [];
    }

    /** The counter restarts; the lists stay as they are. */
    method SetRtpPortRange(startRtpPort: int, lastRtpPort: int)
      modifies this
      ensures var start := if startRtpPort < 0 then 0 else startRtpPort;
        State() == old(State()).(start := start, last := lastRtpPort, next := start)
    {
      miStartRtpPort := startRtpPort;
      if miStartRtpPort < 0 {
        miStartRtpPort := 0;
      }
      miLastRtpPort := lastRtpPort;
      miNextRtpPort := miStartRtpPort;
    }

    method GetNextRtpPort(probe: Probe) returns (rtpPort: int)
      modifies this
      ensures (rtpPort, State()) == GetPort(old(State()), probe)
      ensures var attempts := if miLastRtpPort > miStartRtpPort then miLastRtpPort - miStartRtpPort else 0;
        && |mlistBusyPorts| <= attempts
        && (forall j :: 0 <= j < |mlistBusyPorts| ==> mlistBusyPorts[j] > 0 && probe(j, mlistBusyPorts[j]))
        && (if |mlistBusyPorts| == attempts then rtpPort == 0
            else rtpPort <= 0 || !probe(|mlistBusyPorts|, rtpPort))
    {
      hide Candidate;
      hide Taken;
      hide OnHand;
      ghost var p := State();
      OnHandIs(p);
      var bGoodPort := false;
      var iAttempts := 0;

      // The ports that were busy last time get another chance, behind the free ones.
      while |mlistBusyPorts| > 0
        invariant mlistFreePorts + mlistBusyPorts == OnHand(p)
        invariant State() == p.(free := mlistFreePorts, busy := mlistBusyPorts)
        decreases |mlistBusyPorts|
      {
        var pInt := mlistBusyPorts[0];
        mlistBusyPorts := mlistBusyPorts[1..];
        mlistFreePorts := mlistFreePorts + [pInt];
      }
      rtpPort := 0;
      NothingTried(p);

      while !bGoodPort && iAttempts < miLastRtpPort - miStartRtpPort
        invariant 0 <= iAttempts <= Attempts(p)
        invariant !bGoodPort ==> State() == Taken(p, iAttempts, iAttempts)
        invariant !bGoodPort ==> FirstIdle(p, probe, 0) == FirstIdle(p, probe, iAttempts)
        invariant bGoodPort ==> (rtpPort, State()) == GetPort(p, probe)
        invariant miLastRtpPort == p.last && miStartRtpPort == p.start
        decreases !bGoodPort, Attempts(p) - iAttempts
      {
        OneAttempt(p, iAttempts);
        iAttempts := iAttempts + 1;

        if |mlistFreePorts| > 0 {
          rtpPort := mlistFreePorts[0];
          mlistFreePorts := mlistFreePorts[1..];
        } else {
          rtpPort := miNextRtpPort;
          if miNextRtpPort > 0 {
            miNextRtpPort := miNextRtpPort + 2;
          }
        }

        var portBusy := PortBusy(probe, iAttempts - 1, rtpPort);
        bGoodPort := !portBusy;
        if !bGoodPort {
          mlistBusyPorts := mlistBusyPorts + [rtpPort];
        }
      }

      // Every attempt met a busy port.
      if !bGoodPort {
        rtpPort := 0;
      }
      BusyOnesWereTried(p, probe);
    }

    method ReleaseRtpPort(rtpPort: int)
      modifies this`mlistFreePorts
      ensures State() == Release(old(State()), rtpPort)
      ensures mlistFreePorts == if miNextRtpPort != 0 && rtpPort !in old(mlistFreePorts)
                                then old(mlistFreePorts) + [rtpPort] else old(mlistFreePorts)
    {
      if miNextRtpPort != 0 {
        if rtpPort !in mlistFreePorts {
          mlistFreePorts := mlistFreePorts + [rtpPort];
        }
      }
    }
  }

  /** The busy list after a call, in the terms of its caller. */
  lemma BusyOnesWereTried(p: Pool, probe: Probe)
    ensures var (port, p') := GetPort(p, probe);
      var attempts := if p.last > p.start then p.last - p.start else 0;
      && p'.start == p.start && p'.last == p.last && |p'.busy| <= attempts
      && (forall j :: 0 <= j < |p'.busy| ==> p'.busy[j] > 0 && probe(j, p'.busy[j]))
      && (if |p'.busy| == attempts then port == 0 else port <= 0 || !probe(|p'.busy|, port))
  {
    hide Candidate;
    hide OnHand;
  }

  lemma OnHandIs(p: Pool)
    ensures OnHand(p) == p.free + p.busy
  {
  }

  lemma NothingTried(p: Pool)
    ensures Taken(p, 0, 0) == p.(free := OnHand(p), busy := [])
  {
  }

  // ---------------------------------------------------------------- one call, with the ports handed out

  /** An allocator and the non-zero ports that its callers hold. */
  datatype System = System(pool: Pool, outstanding: set<int>)

  ghost predicate NoDuplicates(s: seq<int>) {
    forall i, j :: 0 <= i < j < |s| ==> s[i] != s[j]
  }

  ghost function Members(s: seq<int>): set<int> {
    set x | x in s
  }

  predicate Even(n: int) {
    n % 2 == 0
  }

  predicate OnGrid(start: int, x: int) {
    Even(x - start)
  }

  /** start, start + 2, ..., next - 2. */
  ghost function Generated(start: int, next: int): set<int> {
    set x | start <= x < next && OnGrid(start, x)
  }

  /** Every port generated so far is in exactly one place, once. */
  ghost predicate Partitioned(s: System) {
    var p := s.pool;
    && 0 < p.start <= p.next && Even(p.next - p.start)
    && NoDuplicates(OnHand(p))
    && Members(OnHand(p)) !! s.outstanding
    && Members(OnHand(p)) + s.outstanding == Generated(p.start, p.next)
  }

  ghost function GetStep(s: System, probe: Probe): System {
    var (port, pool) := GetPort(s.pool, probe);
    System(pool, if port == 0 then s.outstanding else s.outstanding + {port})
  }

  ghost function ReleaseStep(s: System, port: int): System {
    System(Release(s.pool, port), s.outstanding - {port})
  }

  /** next, next + 2, ..., next' - 2. */
  ghost function Fresh(next: int, next': int): (f: seq<int>)
    requires next <= next' && Even(next' - next)
    ensures |f| == (next' - next) / 2 && forall i :: 0 <= i < |f| ==> f[i] == next + 2 * i
  {
    seq((next' - next) / 2, i requires 0 <= i < (next' - next) / 2 => next + 2 * i)
  }

  lemma TriedSplits(p: Pool, t: nat, b: nat)
    requires p.next > 0
    ensures var p' := Taken(p, t, b);
      && p'.next >= p.next && Even(p'.next - p.next)
      && Tried(p, t) + p'.free == OnHand(p) + Fresh(p.next, p'.next)
  {
    var n := |OnHand(p)|;
    var p' := Taken(p, t, b);
    assert p'.next == p.next + 2 * (if t > n then t - n else 0);
    var f := Fresh(p.next, p'.next);
    assert |f| == if t > n then t - n else 0;
    assert |Tried(p, t) + p'.free| == |OnHand(p) + f|;
  }

  ghost predicate PositivePorts(p: Pool) {
    p.next > 0 && forall x :: x in OnHand(p) ==> x > 0
  }

  lemma CandidatePositive(p: Pool, i: nat)
    requires PositivePorts(p)
    ensures Candidate(p, i) > 0
  {
    if i < |OnHand(p)| { assert OnHand(p)[i] in OnHand(p); }
  }

  /**
   Nothing is lost and nothing is invented by a call: the busy ports, the port
   returned and the free ports are, in this order, the ports that were on hand
   followed by the fresh ones.
   */
  lemma GetConserves(p: Pool, probe: Probe)
    requires PositivePorts(p)
    ensures var (port, p') := GetPort(p, probe);
      var k := FirstIdle(p, probe, 0);
      && p'.start == p.start && p'.last == p.last
      && p'.next >= p.next && Even(p'.next - p.next)
      && p'.busy == Tried(p, k)
      && port >= 0 && (port == 0 <==> k == Attempts(p))
      && p'.busy + (if port == 0 then [] else [port]) + p'.free == OnHand(p) + Fresh(p.next, p'.next)
  {
    hide Candidate;
    hide OnHand;
    var k := FirstIdle(p, probe, 0);
    var (port, p') := GetPort(p, probe);
    CandidatePositive(p, k);
    if k < Attempts(p) {
      TriedSplits(p, k + 1, k);
      assert Tried(p, k) + [port] == Tried(p, k + 1);
    } else {
      TriedSplits(p, k, k);
      assert Tried(p, k) + [] == Tried(p, k);
    }
  }

  // ---------------------------------------------------------------- what every call keeps

  lemma {:induction false} CountMembers(s: seq<int>)
    requires NoDuplicates(s)
    ensures |Members(s)| == |s|
  {
    if s == [] {
      assert Members(s) == {};
    } else {
      CountMembers(s[1..]);
      assert Members(s) == {s[0]} + Members(s[1..]);
    }
  }

  lemma {:induction false} CountGenerated(start: int, n: nat)
    ensures |Generated(start, start + 2 * n)| == n
  {
    if n == 0 {
      assert Generated(start, start) == {};
    } else {
      CountGenerated(start, n - 1);
      var m := start + 2 * (n - 1);
      assert OnGrid(start, m);
      assert Generated(start, m + 2) == Generated(start, m) + {m};
      assert m !in Generated(start, m);
    }
  }

  /** The ports on hand and the ports handed out are as many as the counter has produced. */
  lemma CountPorts(s: System)
    requires Partitioned(s)
    ensures s.pool.next == s.pool.start + 2 * (|OnHand(s.pool)| + |s.outstanding|)
  {
    hide OnHand;
    var p := s.pool;
    CountMembers(OnHand(p));
    CountGenerated(p.start, (p.next - p.start) / 2);
    assert |Members(OnHand(p)) + s.outstanding| == |Members(OnHand(p))| + |s.outstanding|;
  }

  lemma PartitionedIsPositive(s: System)
    requires Partitioned(s)
    ensures PositivePorts(s.pool)
    ensures forall x :: x in OnHand(s.pool) || x in s.outstanding ==>
      s.pool.start <= x < s.pool.next && OnGrid(s.pool.start, x)
  {
    hide OnHand;
    forall x | x in OnHand(s.pool) || x in s.outstanding
      ensures s.pool.start <= x < s.pool.next && OnGrid(s.pool.start, x)
    {
      if x in OnHand(s.pool) { assert x in Members(OnHand(s.pool)); }
      assert x in Generated(s.pool.start, s.pool.next);
    }
  }

  lemma FreshGenerated(start: int, next: int, next': int)
    requires start <= next <= next' && Even(next - start) && Even(next' - next)
    ensures Generated(start, next') == Generated(start, next) + Members(Fresh(next, next'))
  {
    var added := Fresh(next, next');
    forall x
      ensures x in added <==> next <= x < next' && OnGrid(start, x)
    {
      if next <= x < next' && OnGrid(start, x) { assert x == added[(x - next) / 2]; }
    }
  }

  lemma MembersAppend(a: seq<int>, b: seq<int>)
    ensures Members(a + b) == Members(a) + Members(b)
  {
  }

  /** Fresh ports are new. */
  lemma FreshIsNew(s: System, next': int)
    requires Partitioned(s) && s.pool.next <= next' && Even(next' - s.pool.next)
    ensures var all := OnHand(s.pool) + Fresh(s.pool.next, next');
      && NoDuplicates(all) && Members(all) !! s.outstanding
      && Members(all) + s.outstanding == Generated(s.pool.start, next')
  {
    hide OnHand;
    hide Generated;
    var p := s.pool;
    var added := Fresh(p.next, next');
    var all := OnHand(p) + added;
    PartitionedIsPositive(s);
    forall i, j | 0 <= i < j < |all|
      ensures all[i] != all[j]
    {
      if i < |OnHand(p)| { assert OnHand(p)[i] in OnHand(p); }
    }
    MembersAppend(OnHand(p), added);
    FreshGenerated(p.start, p.next, next');
    forall x | x in Members(added)
      ensures x !in s.outstanding
    {
      assert x in added;
    }
  }

  lemma Rearranged(busy: seq<int>, mid: seq<int>, free: seq<int>)
    requires NoDuplicates(busy + mid + free)
    ensures NoDuplicates(free + busy)
    ensures Members(free + busy) !! Members(mid)
    ensures Members(free + busy) + Members(mid) == Members(busy + mid + free)
  {
    var all := busy + mid + free;
    forall i, j | 0 <= i < j < |free + busy|
      ensures (free + busy)[i] != (free + busy)[j]
    {
      var i' := if i < |free| then |busy + mid| + i else i - |free|;
      var j' := if j < |free| then |busy + mid| + j else j - |free|;
      assert (free + busy)[i] == all[i'] && (free + busy)[j] == all[j'];
    }
    forall i, j | 0 <= i < |free + busy| && 0 <= j < |mid|
      ensures (free + busy)[i] != mid[j]
    {
      var i' := if i < |free| then |busy + mid| + i else i - |free|;
      assert (free + busy)[i] == all[i'] && mid[j] == all[|busy| + j];
    }
  }

  lemma GetKeepsPartition(s: System, probe: Probe)
    requires Partitioned(s)
    ensures Partitioned(GetStep(s, probe))
    ensures GetPort(s.pool, probe).0 !in s.outstanding
  {
    PartitionedIsPositive(s);
    GetConserves(s.pool, probe);
    hide GetPort;
    var (port, p') := GetPort(s.pool, probe);
    var mid := if port == 0 then [] else [port];
    FreshIsNew(s, p'.next);
    Rearranged(p'.busy, mid, p'.free);
    assert Members(mid) == if port == 0 then {} else {port};
  }

  lemma InsertKeepsDistinct(a: seq<int>, x: int, b: seq<int>)
    requires NoDuplicates(a + b) && x !in a + b
    ensures NoDuplicates(a + [x] + b)
  {
    var s, t := a + b, a + [x] + b;
    forall i, j | 0 <= i < j < |t|
      ensures t[i] != t[j]
    {
      var i' := if i <= |a| then i else i - 1;
      var j' := if j <= |a| then j else j - 1;
      assert i == |a| || t[i] == s[i'];
      assert j == |a| || t[j] == s[j'];
    }
  }

  lemma ReleaseKeepsPartition(s: System, port: int)
    requires Partitioned(s) && port in s.outstanding
    ensures Partitioned(ReleaseStep(s, port))
    ensures Release(s.pool, port).free == s.pool.free + [port]
  {
    var p, p' := s.pool, Release(s.pool, port);
    assert port !in Members(OnHand(p));
    assert port !in OnHand(p);
    InsertKeepsDistinct(p.free, port, p.busy);
    assert OnHand(p') == p.free + [port] + p.busy;
    assert Members(OnHand(p')) == Members(OnHand(p)) + {port};
  }

  // ---------------------------------------------------------------- every run

  datatype Call = Get(probe: Probe) | Return(port: int)

  ghost function Step(s: System, c: Call): System {
    match c
    case Get(probe) => GetStep(s, probe)
    case Return(port) => ReleaseStep(s, port)
  }

  /** Callers give back only ports that they hold. */
  ghost predicate ValidRun(s: System, calls: seq<Call>)
    decreases |calls|
  {
    calls == [] ||
    ((calls[0].Return? ==> calls[0].port in s.outstanding) && ValidRun(Step(s, calls[0]), calls[1..]))
  }

  ghost function Run(s: System, calls: seq<Call>): System
    decreases |calls|
  {
    if calls == [] then s else Run(Step(s, calls[0]), calls[1..])
  }

  /** An empty allocator after setRtpPortRange(start, last). */
  ghost function Initially(start: int, last: int): System {
    System(Pool(start, last, start, [], []), {})
  }

  lemma StepKeepsPartition(s: System, c: Call)
    requires Partitioned(s) && (c.Return? ==> c.port in s.outstanding)
    ensures Partitioned(Step(s, c))
    ensures Step(s, c).pool.start == s.pool.start && Step(s, c).pool.last == s.pool.last
  {
    hide Partitioned;
    hide GetPort;
    match c
    case Get(probe) =>
      GetKeepsPartition(s, probe);
      PartitionedIsPositive(s);
      GetConserves(s.pool, probe);
    case Return(port) =>
      ReleaseKeepsPartition(s, port);
  }

  /** At every moment of every run each port generated is free, busy or handed out, and only one of these. */
  lemma {:induction false} RunKeepsPartition(s: System, calls: seq<Call>)
    requires Partitioned(s) && ValidRun(s, calls)
    ensures Partitioned(Run(s, calls))
    ensures Run(s, calls).pool.start == s.pool.start && Run(s, calls).pool.last == s.pool.last
    decreases |calls|
  {
    hide Partitioned;
    hide Step;
    if calls != [] {
      StepKeepsPartition(s, calls[0]);
      RunKeepsPartition(Step(s, calls[0]), calls[1..]);
    }
  }

  /** The RTP port and the RTCP port above it. */
  function PortPair(port: int): set<int> {
    {port, port + 1}
  }

  /** In every run, media sessions never share an RTP or RTCP port, and an even range gives even ports. */
  lemma PortPairsNeverOverlap(start: int, last: int, calls: seq<Call>)
    requires start > 0 && ValidRun(Initially(start, last), calls)
    ensures var held := Run(Initially(start, last), calls).outstanding;
      && (forall a, b :: a in held && b in held && a != b ==> PortPair(a) !! PortPair(b))
      && (forall a :: a in held ==> a >= start && (Even(a) <==> Even(start)))
  {
    hide Run;
    hide ValidRun;
    var s := Initially(start, last);
    InitiallyPartitioned(start, last);
    RunKeepsPartition(s, calls);
    PairsApart(Run(s, calls));
  }

  lemma InitiallyPartitioned(start: int, last: int)
    requires start > 0
    ensures Partitioned(Initially(start, last))
  {
    assert Members(OnHand(Initially(start, last).pool)) == {} == Generated(start, start);
  }

  lemma PairsApart(s: System)
    requires Partitioned(s)
    ensures forall a, b :: a in s.outstanding && b in s.outstanding && a != b ==> PortPair(a) !! PortPair(b)
    ensures forall a :: a in s.outstanding ==> a >= s.pool.start && (Even(a) <==> Even(s.pool.start))
  {
    hide Partitioned;
    PartitionedIsPositive(s);
    forall a, b | a in s.outstanding && b in s.outstanding && a != b
      ensures PortPair(a) !! PortPair(b)
    {
      assert OnGrid(s.pool.start, a) && OnGrid(s.pool.start, b);
    }
  }
}
