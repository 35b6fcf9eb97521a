/** Master and nodes go through the same collectives: the master drives, a node only knows
    what the broadcasts tell it. */
module Lockstep {
  import opened Partition
  import opened BlockStore
  import opened Cluster

  datatype RequestType = WRITE | READ | CHANGE_DIR | REDUCE_BLOCKS | TERMINATE

  /** The two kinds of broadcast packets. */
  datatype Packet = Request(kind: RequestType) | IORequest(inode: nat, fileSize: nat, reqSize: nat)

  /** One collective call of one process, with the counts that it passes. */
  datatype Collective =
    | Bcast(packet: Packet)
    | Scatter(counts: seq<nat>)
    | Gather(counts: seq<nat>)

  // ---- what the master computes ----

  function MasterBlocks(size: nat, cfg: Config): nat {
    size / cfg.B + (if size % cfg.B > 0 then 1 else 0)
  }

  /** The master's loop over the ranks, up to rank `i`. */
  function MasterCountsUpto(numberOfBlocks: nat, cfg: Config, unit: nat, i: nat): seq<nat> {
    if i == 0 then []
    else
      var blockPerProcess, remainingBlocks := numberOfBlocks / cfg.p, numberOfBlocks % cfg.p;
      MasterCountsUpto(numberOfBlocks, cfg, unit, i - 1)
      + [(blockPerProcess + (if i - 1 < remainingBlocks then 1 else 0)) * unit]
  }

  function MasterCounts(numberOfBlocks: nat, cfg: Config, unit: nat): seq<nat> {
    MasterCountsUpto(numberOfBlocks, cfg, unit, cfg.p)
  }

  function MasterWrite(fileSize: nat, cfg: Config): seq<Collective> {
    var n := MasterBlocks(fileSize, cfg);
    [Scatter(MasterCounts(n, cfg, cfg.B)), Gather(MasterCounts(n, cfg, ADDRESS_PACKET))]
  }

  /** The master returns before any transfer if the file is empty. */
  function MasterRead(fileSize: nat, reqSize: nat, cfg: Config): seq<Collective> {
    if fileSize == 0 then []
    else
      var n := if reqSize > fileSize then MasterBlocks(fileSize, cfg) else MasterBlocks(reqSize, cfg);
      [Scatter(MasterCounts(n, cfg, ADDRESS_PACKET)), Gather(MasterCounts(n, cfg, cfg.B))]
  }

  // ---- what a node computes ----

  function NodeBlocks(size: nat, cfg: Config): nat {
    size / cfg.B + (if size % cfg.B > 0 then 1 else 0)
  }

  /** The blocks of the rank's own share. */
  function EffectiveBlocks(n: nat, p: nat, rank: nat): nat
    requires p > 0
  {
    n / p + (if rank < n % p then 1 else 0)
  }

  function NodeCounts(n: nat, cfg: Config, unit: nat): seq<nat> {
    seq(cfg.p, i requires 0 <= i < cfg.p => EffectiveBlocks(n, cfg.p, i) * unit)
  }

  function NodeWrite(fileSize: nat, cfg: Config): seq<Collective> {
    var n := NodeBlocks(fileSize, cfg);
    [Scatter(NodeCounts(n, cfg, cfg.B)), Gather(NodeCounts(n, cfg, ADDRESS_PACKET))]
  }

  function NodeRead(fileSize: nat, reqSize: nat, cfg: Config): seq<Collective> {
    if fileSize == 0 then []
    else if reqSize > fileSize then NodeReadBlocks(NodeBlocks(fileSize, cfg), cfg)
    else NodeReadBlocks(NodeBlocks(reqSize, cfg), cfg)
  }

  function NodeReadBlocks(n: nat, cfg: Config): seq<Collective> {
    [Scatter(NodeCounts(n, cfg, ADDRESS_PACKET)), Gather(NodeCounts(n, cfg, cfg.B))]
  }

  // ---- they agree ----

  lemma {:induction false} CountsUpto(n: nat, cfg: Config, unit: nat, i: nat)
    requires i <= cfg.p
    ensures |MasterCountsUpto(n, cfg, unit, i)| == i
    ensures forall r: nat :: r < i ==> MasterCountsUpto(n, cfg, unit, i)[r] == EffectiveBlocks(n, cfg.p, r) * unit
  {
    if i > 0 { CountsUpto(n, cfg, unit, i - 1); }
  }

  /** Master and node arrive at the same count for every rank, and it is the count of the
      shares that the block store is cut into. */
  lemma SameCounts(n: nat, cfg: Config, unit: nat)
    ensures MasterCounts(n, cfg, unit) == NodeCounts(n, cfg, unit) == Counts(n, cfg, unit)
  {
    CountsUpto(n, cfg, unit, cfg.p);
    forall r | 0 <= r < cfg.p ensures NodeCounts(n, cfg, unit)[r] == Counts(n, cfg, unit)[r] {
      assert Share(n, cfg.p, r) == EffectiveBlocks(n, cfg.p, r);
    }
  }

  lemma SameTransfers(fileSize: nat, reqSize: nat, cfg: Config)
    ensures MasterWrite(fileSize, cfg) == NodeWrite(fileSize, cfg)
    ensures MasterRead(fileSize, reqSize, cfg) == NodeRead(fileSize, reqSize, cfg)
  {
    SameCounts(MasterBlocks(fileSize, cfg), cfg, cfg.B);
    SameCounts(MasterBlocks(fileSize, cfg), cfg, ADDRESS_PACKET);
    SameCounts(MasterBlocks(reqSize, cfg), cfg, cfg.B);
    SameCounts(MasterBlocks(reqSize, cfg), cfg, ADDRESS_PACKET);
  }

  // ---- and they move the parts of the block store ----

  /** For each rank, the bytes of its part of a buffer, or of the addresses of its blocks. */
  function PartBytes(buf: seq<Byte>, n: nat, cfg: Config): seq<nat>
    requires |buf| == n * cfg.B
  {
    seq(cfg.p, r requires 0 <= r < cfg.p => |PartOf(buf, n, cfg, cfg.B, r)|)
  }

  function PartAddresses(addrs: seq<Addr>, n: nat, cfg: Config): seq<nat>
    requires |addrs| == n
  {
    seq(cfg.p, r requires 0 <= r < cfg.p => |PartOf(addrs, n, cfg, 1, r)| * ADDRESS_PACKET)
  }

  lemma CountsAreParts(buf: seq<Byte>, addrs: seq<Addr>, n: nat, cfg: Config)
    requires |buf| == n * cfg.B && |addrs| == n
    ensures MasterCounts(n, cfg, cfg.B) == PartBytes(buf, n, cfg)
    ensures MasterCounts(n, cfg, ADDRESS_PACKET) == PartAddresses(addrs, n, cfg)
  {
    SameCounts(n, cfg, cfg.B);
    SameCounts(n, cfg, ADDRESS_PACKET);
  }

  /** A write scatters to each rank as many bytes as its part of the buffer has and gathers an
      address packet for each of its blocks; a read scatters the address packets and gathers
      the bytes, and moves nothing if the file is empty. */
  lemma TransfersMoveParts(buf: seq<Byte>, addrs: seq<Addr>, fileSize: nat, reqSize: nat, cfg: Config)
    requires |buf| == |addrs| * cfg.B
    ensures |addrs| == BlockCount(fileSize, cfg.B) ==>
              MasterWrite(fileSize, cfg)
              == [Scatter(PartBytes(buf, |addrs|, cfg)), Gather(PartAddresses(addrs, |addrs|, cfg))]
    ensures fileSize > 0 && |addrs| == BlockCount(if reqSize < fileSize then reqSize else fileSize, cfg.B) ==>
              MasterRead(fileSize, reqSize, cfg)
              == [Scatter(PartAddresses(addrs, |addrs|, cfg)), Gather(PartBytes(buf, |addrs|, cfg))]
    ensures fileSize == 0 ==> MasterRead(fileSize, reqSize, cfg) == []
  {
    CountsAreParts(buf, addrs, |addrs|, cfg);
  }

  // ---- the master ----

  /** What the file system asks of the master. A write leaves the requested size in its
      packet unset, so it may be anything. */
  datatype Job =
    | ChangeDir
    | WriteJob(inode: nat, fileSize: nat, unset: nat)
    | ReadJob(inode: nat, fileSize: nat, reqSize: nat)

  function JobTrace(job: Job, cfg: Config): seq<Collective> {
    match job
    case ChangeDir => [Bcast(Request(CHANGE_DIR))]
    case WriteJob(inode, fileSize, unset) =>
      [Bcast(Request(WRITE)), Bcast(IORequest(inode, fileSize, unset))] + MasterWrite(fileSize, cfg)
    case ReadJob(inode, fileSize, reqSize) =>
      [Bcast(Request(READ)), Bcast(IORequest(inode, fileSize, reqSize))] + MasterRead(fileSize, reqSize, cfg)
  }

  /** All jobs, then termination. */
  function MasterTrace(jobs: seq<Job>, cfg: Config): seq<Collective>
    decreases |jobs|
  {
    if jobs == [] then [Bcast(Request(TERMINATE))]
    else JobTrace(jobs[0], cfg) + MasterTrace(jobs[1..], cfg)
  }

  /** The packets that the master broadcasts in the course of a trace. */
  function Broadcasts(trace: seq<Collective>): seq<Packet>
    decreases |trace|
  {
    if trace == [] then []
    else (if trace[0].Bcast? then [trace[0].packet] else []) + Broadcasts(trace[1..])
  }

  lemma {:induction false} BroadcastsAppend(a: seq<Collective>, b: seq<Collective>)
    ensures Broadcasts(a + b) == Broadcasts(a) + Broadcasts(b)
    decreases |a|
  {
    if a == [] {
      assert a + b == b;
    } else {
      BroadcastsAppend(a[1..], b);
      assert (a + b)[1..] == a[1..] + b && (a + b)[0] == a[0];
      var first := if a[0].Bcast? then [a[0].packet] else [];
      assert Broadcasts(a + b) == first + (Broadcasts(a[1..]) + Broadcasts(b));
      assert Broadcasts(a) == first + Broadcasts(a[1..]);
    }
  }

  // ---- a node ----

  /** What a node has done: the collectives it took part in, the broadcasts it has not
      received yet, and whether its loop ended; a broadcast of the wrong kind stops it cold. */
  datatype NodeRun = NodeRun(trace: seq<Collective>, rest: seq<Packet>, terminated: bool)

  /** The request loop of a node, fed with the master's broadcasts. */
  function NodeLoop(packets: seq<Packet>, cfg: Config): NodeRun
    decreases |packets|
  {
    if packets == [] || !packets[0].Request? then NodeRun([], packets, false)
    else
      match packets[0].kind
      case TERMINATE => NodeRun([Bcast(packets[0])], packets[1..], true)
      case WRITE =>
        if |packets| < 2 || !packets[1].IORequest? then NodeRun([Bcast(packets[0])], packets[1..], false)
        else
          Then([Bcast(packets[0]), Bcast(packets[1])] + NodeWrite(packets[1].fileSize, cfg),
               NodeLoop(packets[2..], cfg))
      case READ =>
        if |packets| < 2 || !packets[1].IORequest? then NodeRun([Bcast(packets[0])], packets[1..], false)
        else
          Then([Bcast(packets[0]), Bcast(packets[1])] + NodeRead(packets[1].fileSize, packets[1].reqSize, cfg),
               NodeLoop(packets[2..], cfg))
      case _ => Then([Bcast(packets[0])], NodeLoop(packets[1..], cfg))
  }

  function Then(done: seq<Collective>, run: NodeRun): NodeRun {
    run.(trace := done + run.trace)
  }

  lemma TransfersAreSilent(fileSize: nat, reqSize: nat, cfg: Config)
    ensures Broadcasts(MasterWrite(fileSize, cfg)) == []
    ensures Broadcasts(MasterRead(fileSize, reqSize, cfg)) == []
  {
    var w, r := MasterWrite(fileSize, cfg), MasterRead(fileSize, reqSize, cfg);
    SilentPair(w[0], w[1]);
    if fileSize > 0 { SilentPair(r[0], r[1]); }
  }

  lemma SilentPair(a: Collective, b: Collective)
    requires !a.Bcast? && !b.Bcast?
    ensures Broadcasts([a, b]) == []
  {
    assert [a, b][1..] == [b];
    assert [b][1..] == [];
    assert Broadcasts([b]) == [];
  }

  lemma JobBroadcasts(job: Job, cfg: Config)
    ensures Broadcasts(JobTrace(job, cfg)) ==
            match job
            case ChangeDir => [Request(CHANGE_DIR)]
            case WriteJob(inode, fileSize, unset) => [Request(WRITE), IORequest(inode, fileSize, unset)]
            case ReadJob(inode, fileSize, reqSize) => [Request(READ), IORequest(inode, fileSize, reqSize)]
  {
    match job
    case ChangeDir =>
    case WriteJob(inode, fileSize, unset) =>
      TransfersAreSilent(fileSize, 0, cfg);
      TwoBroadcasts(Request(WRITE), IORequest(inode, fileSize, unset), MasterWrite(fileSize, cfg));
    case ReadJob(inode, fileSize, reqSize) =>
      TransfersAreSilent(fileSize, reqSize, cfg);
      TwoBroadcasts(Request(READ), IORequest(inode, fileSize, reqSize), MasterRead(fileSize, reqSize, cfg));
  }

  lemma TwoBroadcasts(p: Packet, q: Packet, rest: seq<Collective>)
    ensures Broadcasts([Bcast(p), Bcast(q)] + rest) == [p, q] + Broadcasts(rest)
  {
    var t := [Bcast(p), Bcast(q)] + rest;
    assert t[1..] == [Bcast(q)] + rest && t[1..][1..] == rest;
  }

  /** For every sequence of jobs, each node that is fed the master's broadcasts takes part in
      exactly the master's collectives, in the same order and with the same count for every
      rank, consumes all broadcasts, and terminates. */
  lemma {:induction false} NodesFollowMaster(jobs: seq<Job>, cfg: Config)
    ensures NodeLoop(Broadcasts(MasterTrace(jobs, cfg)), cfg) == NodeRun(MasterTrace(jobs, cfg), [], true)
    decreases |jobs|
  {
    if jobs != [] {
      var rest := MasterTrace(jobs[1..], cfg);
      NodesFollowMaster(jobs[1..], cfg);
      BroadcastsAppend(JobTrace(jobs[0], cfg), rest);
      JobBroadcasts(jobs[0], cfg);
      OneJob(jobs[0], Broadcasts(rest), cfg);
    }
  }

  lemma OneJob(job: Job, rest: seq<Packet>, cfg: Config)
    ensures NodeLoop(Broadcasts(JobTrace(job, cfg)) + rest, cfg) == Then(JobTrace(job, cfg), NodeLoop(rest, cfg))
  {
    JobBroadcasts(job, cfg);
    if !job.ChangeDir? { SameTransfers(job.fileSize, if job.ReadJob? then job.reqSize else 0, cfg); }
    var packets := Broadcasts(JobTrace(job, cfg)) + rest;
    if job.ChangeDir? {
      assert packets[1..] == rest;
    } else {
      assert packets[2..] == rest;
    }
  }

  /** The loop itself: receives until told to terminate. */
  method NodeStart(packets: seq<Packet>, cfg: Config) returns (run: NodeRun)
    ensures run == NodeLoop(packets, cfg)
  {
    var running := true;
    var trace: seq<Collective> := [];
    var pos := 0;
    while running
      invariant 0 <= pos <= |packets|
      invariant running ==> NodeLoop(packets, cfg) == Then(trace, NodeLoop(packets[pos..], cfg))
      invariant !running ==> NodeLoop(packets, cfg) == NodeRun(trace, packets[pos..], true)
      decreases running, |packets| - pos
    {
      if pos == |packets| || !packets[pos].Request? {
        return NodeRun(trace, packets[pos..], false);
      }
      ghost var before := trace;
      var request := packets[pos];
      trace := trace + [Bcast(request)];
      pos := pos + 1;
      if request.kind == WRITE || request.kind == READ {
        if pos == |packets| || !packets[pos].IORequest? {
          return NodeRun(trace, packets[pos..], false);
        }
        var io := packets[pos];
        var transfers := if request.kind == WRITE then NodeWrite(io.fileSize, cfg)
                         else NodeRead(io.fileSize, io.reqSize, cfg);
        trace := trace + [Bcast(io)] + transfers;
        pos := pos + 1;
        assert packets[pos - 2..][2..] == packets[pos..];
        assert trace == before + ([Bcast(request), Bcast(io)] + transfers);
        ThenThen(before, [Bcast(request), Bcast(io)] + transfers, NodeLoop(packets[pos..], cfg));
      } else if request.kind == TERMINATE {
        running := false;
        assert packets[pos - 1..][1..] == packets[pos..];
      } else {
        assert packets[pos - 1..][1..] == packets[pos..];
        ThenThen(before, [Bcast(request)], NodeLoop(packets[pos..], cfg));
      }
    }
    run := NodeRun(trace, packets[pos..], true);
  }

  lemma ThenThen(a: seq<Collective>, b: seq<Collective>, run: NodeRun)
    ensures Then(a, Then(b, run)) == Then(a + b, run)
  {
    assert a + (b + run.trace) == (a + b) + run.trace;
  }
}
