/** The peer-to-peer request protocol: who is sent what, and every interleaving of the sends
    and receives of one operation over FIFO channels (MPI-3.1, section 3.5). */
module PeerProtocol {

  datatype Kind = WRITE | READ | CREATE_FILE | DELETE_FILE | CREATE_DIR | DELETE_DIR | RENAME | TERMINATE

  datatype Body =
    | IORequest(inode: nat, fileSize: nat, reqSize: nat)
    | Path(name: string)
    | TwoPaths(from: string, to: string)

  /** A request packet announces the kind; for most kinds a second packet follows. */
  datatype Msg = Header(kind: Kind) | Payload(body: Body)

  /** A message on its way to rank `dst`. */
  datatype Sending = Sending(dst: nat, msg: Msg)

  // ---- what the sender sends, in order ----

  /** One message to every rank below `n` except the source. */
  function ToOthers(source: nat, n: nat, msg: Msg): seq<Sending> {
    if n == 0 then []
    else ToOthers(source, n - 1, msg) + (if n - 1 != source then [Sending(n - 1, msg)] else [])
  }

  /** A header to rank `d`, and the body unless it is the source itself. */
  function ToRank(source: nat, d: nat, kind: Kind, body: Body): seq<Sending> {
    [Sending(d, Header(kind))] + (if d != source then [Sending(d, Payload(body))] else [])
  }

  function HeadersAndBodies(source: nat, n: nat, kind: Kind, body: Body): seq<Sending> {
    if n == 0 then [] else HeadersAndBodies(source, n - 1, kind, body) + ToRank(source, n - 1, kind, body)
  }

  function ToAll(n: nat, msg: Msg): seq<Sending> {
    if n == 0 then [] else ToAll(n - 1, msg) + [Sending(n - 1, msg)]
  }

  /** Reads and writes send all headers to the others first; namespace requests send header
      and body rank by rank, the header to the source as well; termination has no body. */
  function SendList(source: nat, p: nat, kind: Kind, body: Body): seq<Sending> {
    match kind
    case WRITE => ToOthers(source, p, Header(kind)) + ToOthers(source, p, Payload(body))
    case READ => ToOthers(source, p, Header(kind)) + ToOthers(source, p, Payload(body))
    case TERMINATE => ToAll(p, Header(kind))
    case _ => HeadersAndBodies(source, p, kind, body)
  }

  /** The messages of a list that go to rank `d`. */
  function To(list: seq<Sending>, d: nat): seq<Msg> {
    if list == [] then []
    else To(list[..|list| - 1], d) + (if list[|list| - 1].dst == d then [list[|list| - 1].msg] else [])
  }

  /** What rank `d` gets out of one operation. */
  function Expected(source: nat, kind: Kind, body: Body, d: nat): seq<Msg> {
    match kind
    case WRITE => if d == source then [] else [Header(kind), Payload(body)]
    case READ => if d == source then [] else [Header(kind), Payload(body)]
    case TERMINATE => [Header(kind)]
    case _ => if d == source then [Header(kind)] else [Header(kind), Payload(body)]
  }

  lemma {:induction false} ToAppend(a: seq<Sending>, b: seq<Sending>, d: nat)
    ensures To(a + b, d) == To(a, d) + To(b, d)
    decreases |b|
  {
    if b == [] {
      assert a + b == a;
    } else {
      assert (a + b)[..|a + b| - 1] == a + b[..|b| - 1];
      ToAppend(a, b[..|b| - 1], d);
    }
  }

  lemma ToLast(a: seq<Sending>, s: Sending, d: nat)
    ensures To(a + [s], d) == To(a, d) + (if s.dst == d then [s.msg] else [])
  {
    assert (a + [s])[..|a|] == a;
  }

  lemma {:induction false} ToOthersAt(source: nat, n: nat, msg: Msg, d: nat)
    ensures To(ToOthers(source, n, msg), d) == if d < n && d != source then [msg] else []
  {
    if n > 0 {
      ToOthersAt(source, n - 1, msg, d);
      if n - 1 != source {
        ToLast(ToOthers(source, n - 1, msg), Sending(n - 1, msg), d);
      } else {
        assert ToOthers(source, n, msg) == ToOthers(source, n - 1, msg);
      }
    }
  }

  lemma {:induction false} ToAllAt(n: nat, msg: Msg, d: nat)
    ensures To(ToAll(n, msg), d) == if d < n then [msg] else []
  {
    if n > 0 {
      ToAllAt(n - 1, msg, d);
      ToLast(ToAll(n - 1, msg), Sending(n - 1, msg), d);
    }
  }

  lemma {:induction false} HeadersAndBodiesAt(source: nat, n: nat, kind: Kind, body: Body, d: nat)
    ensures To(HeadersAndBodies(source, n, kind, body), d) ==
            if d >= n then [] else if d == source then [Header(kind)] else [Header(kind), Payload(body)]
  {
    if n > 0 {
      var front, last := HeadersAndBodies(source, n - 1, kind, body), ToRank(source, n - 1, kind, body);
      HeadersAndBodiesAt(source, n - 1, kind, body, d);
      ToRankAt(source, n - 1, kind, body, d);
      ToAppend(front, last, d);
      if d == n - 1 {
        assert To(front, d) + To(last, d) == To(last, d);
      } else {
        assert To(front, d) + To(last, d) == To(front, d);
      }
    }
  }

  lemma ToRankAt(source: nat, r: nat, kind: Kind, body: Body, d: nat)
    ensures To(ToRank(source, r, kind, body), d) ==
            if d != r then [] else if d == source then [Header(kind)] else [Header(kind), Payload(body)]
  {
    var header, payload := Sending(r, Header(kind)), Sending(r, Payload(body));
    assert [] + [header] == [header];
    ToLast([], header, d);
    ToLast([header], payload, d);
  }

  /** The send loops give each rank exactly what it expects. */
  lemma EachRankGetsExpected(source: nat, p: nat, kind: Kind, body: Body, d: nat)
    requires d < p
    ensures To(SendList(source, p, kind, body), d) == Expected(source, kind, body, d)
  {
    match kind
    case WRITE =>
      ToAppend(ToOthers(source, p, Header(kind)), ToOthers(source, p, Payload(body)), d);
      ToOthersAt(source, p, Header(kind), d);
      ToOthersAt(source, p, Payload(body), d);
    case READ =>
      ToAppend(ToOthers(source, p, Header(kind)), ToOthers(source, p, Payload(body)), d);
      ToOthersAt(source, p, Header(kind), d);
      ToOthersAt(source, p, Payload(body), d);
    case TERMINATE => ToAllAt(p, Header(kind), d);
    case _ => HeadersAndBodiesAt(source, p, kind, body, d);
  }

  // ---- the receive loop of one peer ----

  /** A request that a peer has started to handle: the kind and sender of the header, the
      sender and contents of the body. */
  datatype Served = Served(kind: Kind, headerFrom: nat, bodyFrom: nat, body: Body)

  datatype Phase = Idle | AwaitsBody(kind: Kind, from: nat) | Stopped | Broken

  datatype Peer = Peer(phase: Phase, log: seq<Served>)

  /** Receiving `msg` from rank `src`. Neither receive names its source. Taking a body for a
      header or the other way round breaks the peer. */
  function Receive(peer: Peer, me: nat, src: nat, msg: Msg): Peer {
    match peer.phase
    case Idle =>
      if msg.Payload? then peer.(phase := Broken)
      else if msg.kind == TERMINATE then peer.(phase := Stopped)
      else if src == me then peer
      else peer.(phase := AwaitsBody(msg.kind, src))
    case AwaitsBody(kind, from) =>
      if msg.Header? then peer.(phase := Broken)
      else Peer(Idle, peer.log + [Served(kind, from, src, msg.body)])
    case _ => peer
  }

  predicate Receives(peer: Peer) { peer.phase.Idle? || peer.phase.AwaitsBody? }

  /** The loop of one peer, fed with arrivals in the order in which it takes them. */
  function ReceiveAll(peer: Peer, me: nat, arrivals: seq<(nat, Msg)>): Peer {
    if arrivals == [] then peer
    else
      var before := ReceiveAll(peer, me, arrivals[..|arrivals| - 1]);
      Receive(before, me, arrivals[|arrivals| - 1].0, arrivals[|arrivals| - 1].1)
  }

  // ---- all peers and channels ----

  type Channels = map<(nat, nat), seq<Msg>>

  function Chan(chans: Channels, src: nat, dst: nat): seq<Msg> {
    if (src, dst) in chans then chans[(src, dst)] else []
  }

  function Enqueue(chans: Channels, src: nat, dst: nat, msg: Msg): Channels {
    chans[(src, dst) := Chan(chans, src, dst) + [msg]]
  }

  /** One operation in flight: how many sends have been done, the channels, the peers, and
      what each peer has taken from the source so far. */
  datatype Net = Net(sent: nat, chans: Channels, peers: seq<Peer>, taken: seq<seq<Msg>>)

  datatype Op = Op(source: nat, kind: Kind, body: Body)

  /** The source does its next send, or rank `dst` takes the oldest message from `src`. */
  datatype Move = Send | Take(dst: nat, src: nat)

  ghost predicate Enabled(net: Net, op: Op, p: nat, move: Move) {
    match move
    case Send => net.sent < |SendList(op.source, p, op.kind, op.body)|
    case Take(dst, src) =>
      dst < |net.peers| == |net.taken| && src < p && Receives(net.peers[dst]) && Chan(net.chans, src, dst) != []
  }

  ghost function Next(net: Net, op: Op, p: nat, move: Move): Net
    requires Enabled(net, op, p, move)
  {
    match move
    case Send =>
      var s := SendList(op.source, p, op.kind, op.body)[net.sent];
      net.(sent := net.sent + 1, chans := Enqueue(net.chans, op.source, s.dst, s.msg))
    case Take(dst, src) =>
      var queue := Chan(net.chans, src, dst);
      net.(chans := net.chans[(src, dst) := queue[1..]],
           peers := net.peers[dst := Receive(net.peers[dst], dst, src, queue[0])],
           taken := net.taken[dst := net.taken[dst] + [queue[0]]])
  }

  ghost predicate AllEmpty(chans: Channels) {
    forall src: nat, dst: nat :: Chan(chans, src, dst) == []
  }

  /** Where an operation starts: nothing in flight, every peer waiting for a header. */
  ghost predicate Quiet(net: Net, p: nat) {
    && net.sent == 0
    && AllEmpty(net.chans)
    && |net.peers| == |net.taken| == p
    && (forall d :: 0 <= d < p ==> net.peers[d].phase.Idle? && net.taken[d] == [])
  }

  ghost predicate Possible(net: Net, op: Op, p: nat, moves: seq<Move>)
    decreases |moves|
  {
    moves == [] || (Enabled(net, op, p, moves[0]) && Possible(Next(net, op, p, moves[0]), op, p, moves[1..]))
  }

  ghost function After(net: Net, op: Op, p: nat, moves: seq<Move>): Net
    requires Possible(net, op, p, moves)
    decreases |moves|
  {
    if moves == [] then net else After(Next(net, op, p, moves[0]), op, p, moves[1..])
  }

  /** A peer that started idle with log `log0` and took `taken` from the source. */
  ghost function PeerAfter(log0: seq<Served>, d: nat, op: Op, taken: seq<Msg>): Peer {
    if |taken| == 0 then Peer(Idle, log0)
    else Receive(PeerAfter(log0, d, op, taken[..|taken| - 1]), d, op.source, taken[|taken| - 1])
  }

  /** The invariant of one operation: only the source's channels are in use, and what a rank
      has taken, followed by what waits for it, is what has been sent to it. */
  ghost predicate NetInv(net: Net, op: Op, p: nat, logs: seq<seq<Served>>) {
    && |net.peers| == |net.taken| == |logs| == p && op.source < p
    && net.sent <= |SendList(op.source, p, op.kind, op.body)|
    && (forall src: nat, dst: nat :: src != op.source || dst >= p ==> Chan(net.chans, src, dst) == [])
    && (forall d: nat :: d < p ==> RankInv(net, op, p, logs[d], d))
  }

  ghost predicate RankInv(net: Net, op: Op, p: nat, log: seq<Served>, d: nat)
    requires d < |net.peers| == |net.taken| && net.sent <= |SendList(op.source, p, op.kind, op.body)|
  {
    && To(SendList(op.source, p, op.kind, op.body)[..net.sent], d) == net.taken[d] + Chan(net.chans, op.source, d)
    && net.peers[d] == PeerAfter(log, d, op, net.taken[d])
  }

  lemma QuietInv(net: Net, op: Op, p: nat)
    requires Quiet(net, p) && op.source < p
    ensures NetInv(net, op, p, seq(p, d requires 0 <= d < p => net.peers[d].log))
  {
    forall d: nat | d < p ensures RankInv(net, op, p, net.peers[d].log, d) {
      assert SendList(op.source, p, op.kind, op.body)[..0] == [];
    }
  }

  lemma {:induction false} ListInRange(source: nat, n: nat, kind: Kind, body: Body, msg: Msg, k: nat)
    ensures k < |ToOthers(source, n, msg)| ==> ToOthers(source, n, msg)[k].dst < n
    ensures k < |ToAll(n, msg)| ==> ToAll(n, msg)[k].dst < n
    ensures k < |HeadersAndBodies(source, n, kind, body)| ==> HeadersAndBodies(source, n, kind, body)[k].dst < n
  {
    if n > 0 { ListInRange(source, n - 1, kind, body, msg, k); }
  }

  lemma SendInRange(op: Op, p: nat, k: nat)
    requires k < |SendList(op.source, p, op.kind, op.body)|
    ensures SendList(op.source, p, op.kind, op.body)[k].dst < p
  {
    ListInRange(op.source, p, op.kind, op.body, Header(op.kind), k);
    if k >= |ToOthers(op.source, p, Header(op.kind))| {
      ListInRange(op.source, p, op.kind, op.body, Payload(op.body), k - |ToOthers(op.source, p, Header(op.kind))|);
    }
  }

  lemma SendKeepsInv(net: Net, op: Op, p: nat, logs: seq<seq<Served>>)
    requires NetInv(net, op, p, logs) && Enabled(net, op, p, Send)
    ensures NetInv(Next(net, op, p, Send), op, p, logs)
  {
    var list := SendList(op.source, p, op.kind, op.body);
    var next := Next(net, op, p, Send);
    SendInRange(op, p, net.sent);
    forall d: nat | d < p ensures RankInv(next, op, p, logs[d], d) {
      assert RankInv(net, op, p, logs[d], d);
      assert list[..net.sent + 1][..net.sent] == list[..net.sent];
    }
    forall src: nat, dst: nat | src != op.source || dst >= p ensures Chan(next.chans, src, dst) == [] {
      assert Chan(net.chans, src, dst) == [];
    }
  }

  lemma TakeKeepsInv(net: Net, op: Op, p: nat, logs: seq<seq<Served>>, dst: nat, src: nat)
    requires NetInv(net, op, p, logs) && Enabled(net, op, p, Take(dst, src))
    ensures src == op.source
    ensures NetInv(Next(net, op, p, Take(dst, src)), op, p, logs)
  {
    var next := Next(net, op, p, Take(dst, src));
    var queue := Chan(net.chans, src, dst);
    assert src == op.source;
    forall d: nat | d < p ensures RankInv(next, op, p, logs[d], d) {
      assert RankInv(net, op, p, logs[d], d);
      if d == dst {
        assert net.taken[d] + queue == next.taken[d] + queue[1..];
        assert next.taken[d][..|next.taken[d]| - 1] == net.taken[d];
      }
    }
    forall s: nat, d: nat | s != op.source || d >= p ensures Chan(next.chans, s, d) == [] {
      assert Chan(net.chans, s, d) == [];
    }
  }

  lemma {:induction false} MovesKeepInv(net: Net, op: Op, p: nat, logs: seq<seq<Served>>, moves: seq<Move>)
    requires NetInv(net, op, p, logs) && Possible(net, op, p, moves)
    ensures NetInv(After(net, op, p, moves), op, p, logs)
    decreases |moves|
  {
    if moves != [] {
      match moves[0] {
        case Send => SendKeepsInv(net, op, p, logs);
        case Take(dst, src) => TakeKeepsInv(net, op, p, logs, dst, src);
      }
      MovesKeepInv(Next(net, op, p, moves[0]), op, p, logs, moves[1..]);
    }
  }

  // ---- safety ----

  /** What a peer looks like part of the way through: never broken, and the only request it
      can have served has its header and its body from the source. */
  ghost predicate Sound(peer: Peer, log: seq<Served>, op: Op, d: nat) {
    || peer == Peer(Idle, log)
    || (d != op.source && op.kind != TERMINATE && peer == Peer(AwaitsBody(op.kind, op.source), log))
    || (d != op.source && op.kind != TERMINATE
        && peer == Peer(Idle, log + [Served(op.kind, op.source, op.source, op.body)]))
    || (op.kind == TERMINATE && peer == Peer(Stopped, log))
  }

  lemma {:induction false} ToPrefix(list: seq<Sending>, k: nat, d: nat)
    requires k <= |list|
    ensures To(list[..k], d) <= To(list, d)
  {
    assert list == list[..k] + list[k..];
    ToAppend(list[..k], list[k..], d);
  }

  lemma TakenIsPrefix(net: Net, op: Op, p: nat, logs: seq<seq<Served>>, d: nat)
    requires NetInv(net, op, p, logs) && d < p
    ensures net.taken[d] <= Expected(op.source, op.kind, op.body, d)
    ensures Chan(net.chans, op.source, d) != [] ==> net.taken[d] < Expected(op.source, op.kind, op.body, d)
  {
    assert RankInv(net, op, p, logs[d], d);
    ToPrefix(SendList(op.source, p, op.kind, op.body), net.sent, d);
    EachRankGetsExpected(op.source, p, op.kind, op.body, d);
  }

  lemma PrefixSound(log: seq<Served>, op: Op, d: nat, taken: seq<Msg>)
    requires taken <= Expected(op.source, op.kind, op.body, d)
    ensures Sound(PeerAfter(log, d, op, taken), log, op, d)
    ensures taken < Expected(op.source, op.kind, op.body, d) ==> Receives(PeerAfter(log, d, op, taken))
    ensures taken == Expected(op.source, op.kind, op.body, d) ==>
              PeerAfter(log, d, op, taken) == Final(log, op, d)
  {
    var expected := Expected(op.source, op.kind, op.body, d);
    if |taken| == 1 {
      assert taken[..0] == [] && taken[0] == expected[0];
    } else if |taken| == 2 {
      assert taken[..1][..0] == [] && taken[..1][0] == expected[0] && taken[1] == expected[1];
    }
  }

  /** Each peer at the end: the source has nothing new, the others have served the request
      once; after a termination everybody has stopped. */
  ghost function Final(log: seq<Served>, op: Op, d: nat): Peer {
    if op.kind == TERMINATE then Peer(Stopped, log)
    else if d == op.source then Peer(Idle, log)
    else Peer(Idle, log + [Served(op.kind, op.source, op.source, op.body)])
  }

  ghost function Logs(net: Net): seq<seq<Served>> {
    seq(|net.peers|, d requires 0 <= d < |net.peers| => net.peers[d].log)
  }

  /** Safety: from a quiet start, under every interleaving, every peer is sound at any time. */
  lemma ProtocolSafety(net: Net, op: Op, p: nat, moves: seq<Move>, d: nat)
    requires Quiet(net, p) && op.source < p && d < p && Possible(net, op, p, moves)
    ensures |After(net, op, p, moves).peers| == p
    ensures Sound(After(net, op, p, moves).peers[d], net.peers[d].log, op, d)
  {
    QuietInv(net, op, p);
    MovesKeepInv(net, op, p, Logs(net), moves);
    var now := After(net, op, p, moves);
    assert RankInv(now, op, p, Logs(net)[d], d);
    TakenIsPrefix(now, op, p, Logs(net), d);
    PrefixSound(Logs(net)[d], op, d, now.taken[d]);
  }

  ghost predicate Finished(net: Net, op: Op, p: nat) {
    forall move :: !Enabled(net, op, p, move)
  }

  /** When no move is left, all channels are empty and every peer is in its final state. */
  lemma FinishedInFinalState(net: Net, op: Op, p: nat, logs: seq<seq<Served>>)
    requires NetInv(net, op, p, logs) && Finished(net, op, p)
    ensures AllEmpty(net.chans)
    ensures forall d: nat :: d < p ==> net.peers[d] == Final(logs[d], op, d)
  {
    var list := SendList(op.source, p, op.kind, op.body);
    assert !Enabled(net, op, p, Send);
    assert list[..net.sent] == list;
    forall d: nat | d < p
      ensures Chan(net.chans, op.source, d) == [] && net.peers[d] == Final(logs[d], op, d)
    {
      assert RankInv(net, op, p, logs[d], d);
      TakenIsPrefix(net, op, p, logs, d);
      PrefixSound(logs[d], op, d, net.taken[d]);
      assert !Enabled(net, op, p, Take(d, op.source));
      EachRankGetsExpected(op.source, p, op.kind, op.body, d);
      assert net.taken[d] + [] == net.taken[d];
    }
  }

  /** Every interleaving that cannot go on has delivered the request exactly once to every
      peer but the source, header and body paired, and left nothing behind. */
  lemma ProtocolCompletes(net: Net, op: Op, p: nat, moves: seq<Move>)
    requires Quiet(net, p) && op.source < p && Possible(net, op, p, moves)
    requires Finished(After(net, op, p, moves), op, p)
    ensures AllEmpty(After(net, op, p, moves).chans)
    ensures |After(net, op, p, moves).peers| == p
    ensures forall d: nat :: d < p ==> After(net, op, p, moves).peers[d] == Final(net.peers[d].log, op, d)
  {
    QuietInv(net, op, p);
    MovesKeepInv(net, op, p, Logs(net), moves);
    FinishedInFinalState(After(net, op, p, moves), op, p, Logs(net));
  }

  // ---- every interleaving ends ----

  ghost function TakenTotal(taken: seq<seq<Msg>>): nat {
    if taken == [] then 0 else TakenTotal(taken[..|taken| - 1]) + |taken[|taken| - 1]|
  }

  lemma {:induction false} TakenGrows(taken: seq<seq<Msg>>, d: nat, more: seq<Msg>)
    requires d < |taken|
    ensures TakenTotal(taken[d := more]) == TakenTotal(taken) - |taken[d]| + |more|
  {
    var last := |taken| - 1;
    if d == last {
      assert taken[d := more][..last] == taken[..last];
    } else {
      TakenGrows(taken[..last], d, more);
      assert taken[d := more][..last] == taken[..last][d := more];
    }
  }

  lemma {:induction false} TakenBounded(taken: seq<seq<Msg>>)
    requires forall d :: 0 <= d < |taken| ==> |taken[d]| <= 2
    ensures TakenTotal(taken) <= 2 * |taken|
  {
    if taken != [] { TakenBounded(taken[..|taken| - 1]); }
  }

  lemma {:induction false} MovesCount(net: Net, op: Op, p: nat, moves: seq<Move>)
    requires Possible(net, op, p, moves)
    ensures After(net, op, p, moves).sent + TakenTotal(After(net, op, p, moves).taken)
            == net.sent + TakenTotal(net.taken) + |moves|
    decreases |moves|
  {
    if moves != [] {
      var next := Next(net, op, p, moves[0]);
      if moves[0].Take? {
        TakenGrows(net.taken, moves[0].dst, next.taken[moves[0].dst]);
      }
      MovesCount(next, op, p, moves[1..]);
    }
  }

  lemma {:induction false} NothingTaken(taken: seq<seq<Msg>>)
    requires forall d :: 0 <= d < |taken| ==> taken[d] == []
    ensures TakenTotal(taken) == 0
  {
    if taken != [] { NothingTaken(taken[..|taken| - 1]); }
  }

  /** Sends and receives that have happened. */
  ghost function Progress(net: Net): nat { net.sent + TakenTotal(net.taken) }

  lemma ProgressBounded(net: Net, op: Op, p: nat, logs: seq<seq<Served>>)
    requires NetInv(net, op, p, logs)
    ensures Progress(net) <= |SendList(op.source, p, op.kind, op.body)| + 2 * p
  {
    forall d | 0 <= d < p ensures |net.taken[d]| <= 2 {
      TakenIsPrefix(net, op, p, logs, d);
    }
    TakenBounded(net.taken);
  }

  /** No interleaving is longer than the sends plus two receives for each rank. */
  lemma ProtocolTerminates(net: Net, op: Op, p: nat, moves: seq<Move>)
    requires Quiet(net, p) && op.source < p && Possible(net, op, p, moves)
    ensures |moves| <= |SendList(op.source, p, op.kind, op.body)| + 2 * p
  {
    QuietInv(net, op, p);
    MovesKeepInv(net, op, p, Logs(net), moves);
    MovesCount(net, op, p, moves);
    NothingTaken(net.taken);
    ProgressBounded(After(net, op, p, moves), op, p, Logs(net));
  }

  lemma OneMoveProgresses(net: Net, op: Op, p: nat, logs: seq<seq<Served>>, move: Move)
    requires NetInv(net, op, p, logs) && Enabled(net, op, p, move)
    ensures NetInv(Next(net, op, p, move), op, p, logs)
    ensures Progress(Next(net, op, p, move)) == Progress(net) + 1
  {
    match move
    case Send => SendKeepsInv(net, op, p, logs);
    case Take(dst, src) =>
      TakeKeepsInv(net, op, p, logs, dst, src);
      TakenGrows(net.taken, dst, Next(net, op, p, move).taken[dst]);
  }

  /** From any point of an operation the moves can go on until none is left. */
  lemma {:induction false} CanFinish(net: Net, op: Op, p: nat, logs: seq<seq<Served>>) returns (moves: seq<Move>)
    requires NetInv(net, op, p, logs)
    ensures Possible(net, op, p, moves) && Finished(After(net, op, p, moves), op, p)
    decreases |SendList(op.source, p, op.kind, op.body)| + 2 * p - Progress(net)
  {
    if Finished(net, op, p) {
      moves := [];
    } else {
      var move :| Enabled(net, op, p, move);
      OneMoveProgresses(net, op, p, logs, move);
      ProgressBounded(Next(net, op, p, move), op, p, logs);
      var rest := CanFinish(Next(net, op, p, move), op, p, logs);
      moves := [move] + rest;
      assert moves[1..] == rest;
    }
  }

  /** Nothing gets stuck: after any beginning of an operation there is a way to its end. */
  lemma ProtocolProgresses(net: Net, op: Op, p: nat, moves: seq<Move>) returns (rest: seq<Move>)
    requires Quiet(net, p) && op.source < p && Possible(net, op, p, moves)
    ensures Possible(After(net, op, p, moves), op, p, rest)
    ensures Finished(After(After(net, op, p, moves), op, p, rest), op, p)
  {
    QuietInv(net, op, p);
    MovesKeepInv(net, op, p, Logs(net), moves);
    rest := CanFinish(After(net, op, p, moves), op, p, Logs(net));
  }

  // ---- one operation after another ----

  /** An operation and the order in which its sends and receives happened to come. */
  datatype Round = Round(op: Op, moves: seq<Move>)

  /** The same channels and peers, ready for the next operation. */
  ghost function NextRound(net: Net): Net {
    net.(sent := 0, taken := seq(|net.taken|, _ => []))
  }

  /** The rounds run one at a time: each starts when nothing of the one before is left. */
  ghost predicate OneAtATime(net: Net, rounds: seq<Round>, p: nat)
    decreases |rounds|
  {
    rounds == [] ||
    (&& rounds[0].op.source < p && rounds[0].op.kind != TERMINATE
     && Possible(net, rounds[0].op, p, rounds[0].moves)
     && Finished(After(net, rounds[0].op, p, rounds[0].moves), rounds[0].op, p)
     && OneAtATime(NextRound(After(net, rounds[0].op, p, rounds[0].moves)), rounds[1..], p))
  }

  ghost function AfterRounds(net: Net, rounds: seq<Round>, p: nat): Net
    requires OneAtATime(net, rounds, p)
    decreases |rounds|
  {
    if rounds == [] then net
    else AfterRounds(NextRound(After(net, rounds[0].op, p, rounds[0].moves)), rounds[1..], p)
  }

  /** The requests of the rounds as rank `d` should serve them: all but its own, in order,
      header and body from the rank that issued them. */
  function ServedBy(rounds: seq<Round>, d: nat): seq<Served>
    decreases |rounds|
  {
    if rounds == [] then []
    else
      var op := rounds[0].op;
      (if op.source == d then [] else [Served(op.kind, op.source, op.source, op.body)]) + ServedBy(rounds[1..], d)
  }

  lemma QuietAgain(net: Net, op: Op, p: nat, moves: seq<Move>)
    requires Quiet(net, p) && op.source < p && op.kind != TERMINATE && Possible(net, op, p, moves)
    requires Finished(After(net, op, p, moves), op, p)
    ensures Quiet(NextRound(After(net, op, p, moves)), p)
  {
    ProtocolCompletes(net, op, p, moves);
    QuietInv(net, op, p);
    MovesKeepInv(net, op, p, Logs(net), moves);
    var after := After(net, op, p, moves);
    forall d: nat | d < p ensures after.peers[d].phase.Idle? {
      assert after.peers[d] == Final(net.peers[d].log, op, d);
    }
  }

  /** Over any sequence of operations from any sources, whatever the order of sends and
      receives within each, every peer ends idle and has served exactly the operations of
      the others, in the order in which they were issued. */
  lemma {:induction false} EveryPeerServesEveryRound(net: Net, rounds: seq<Round>, p: nat, d: nat)
    requires Quiet(net, p) && OneAtATime(net, rounds, p) && d < p
    ensures Quiet(AfterRounds(net, rounds, p), p)
    ensures AfterRounds(net, rounds, p).peers[d] == Peer(Idle, net.peers[d].log + ServedBy(rounds, d))
    decreases |rounds|
  {
    if rounds == [] {
      assert net.peers[d].log + [] == net.peers[d].log;
    } else {
      var op, moves := rounds[0].op, rounds[0].moves;
      QuietAgain(net, op, p, moves);
      ProtocolCompletes(net, op, p, moves);
      var next := NextRound(After(net, op, p, moves));
      EveryPeerServesEveryRound(next, rounds[1..], p, d);
      assert next.peers[d] == Final(net.peers[d].log, op, d);
      ServedInOrder(net.peers[d].log, next.peers[d].log, rounds, d);
    }
  }

  lemma ServedInOrder(before: seq<Served>, after: seq<Served>, rounds: seq<Round>, d: nat)
    requires rounds != [] && rounds[0].op.kind != TERMINATE
    requires after == Final(before, rounds[0].op, d).log
    ensures after + ServedBy(rounds[1..], d) == before + ServedBy(rounds, d)
  {
    var op := rounds[0].op;
    if op.source != d {
      assert before + ([Served(op.kind, op.source, op.source, op.body)] + ServedBy(rounds[1..], d))
             == (before + [Served(op.kind, op.source, op.source, op.body)]) + ServedBy(rounds[1..], d);
    } else {
      assert [] + ServedBy(rounds[1..], d) == ServedBy(rounds[1..], d);
    }
  }

  // ---- the loops of the program ----

  /** The channels after a list of sends by `source`, in order. */
  function EnqueueAll(chans: Channels, source: nat, list: seq<Sending>): Channels {
    if list == [] then chans
    else
      var last := list[|list| - 1];
      Enqueue(EnqueueAll(chans, source, list[..|list| - 1]), source, last.dst, last.msg)
  }

  /** Each rank's channel from the source gets its messages at the end; no other channel changes. */
  lemma {:induction false} EnqueuedAt(chans: Channels, source: nat, list: seq<Sending>, src: nat, d: nat)
    ensures Chan(EnqueueAll(chans, source, list), src, d)
            == if src == source then Chan(chans, src, d) + To(list, d) else Chan(chans, src, d)
  {
    if list != [] {
      EnqueuedAt(chans, source, list[..|list| - 1], src, d);
    } else {
      assert Chan(chans, src, d) + [] == Chan(chans, src, d);
    }
  }

  lemma EnqueueNext(chans: Channels, source: nat, list: seq<Sending>, s: Sending)
    ensures EnqueueAll(chans, source, list + [s]) == Enqueue(EnqueueAll(chans, source, list), source, s.dst, s.msg)
  {
    assert (list + [s])[..|list|] == list;
  }

  lemma {:induction false} EnqueueTwice(chans: Channels, source: nat, a: seq<Sending>, b: seq<Sending>)
    ensures EnqueueAll(EnqueueAll(chans, source, a), source, b) == EnqueueAll(chans, source, a + b)
    decreases |b|
  {
    if b == [] {
      assert a + b == a;
    } else {
      var front, last := b[..|b| - 1], b[|b| - 1];
      EnqueueTwice(chans, source, a, front);
      EnqueueNext(chans, source, a + front, last);
      assert a + b == (a + front) + [last];
    }
  }

  /** The communicator: one FIFO channel for each pair of ranks. */
  class Network {
    const worldSize: nat
    var chans: Channels

    constructor (worldSize: nat)
      ensures this.worldSize == worldSize && chans == map[]
    {
      this.worldSize := worldSize;
      chans := map[];
    }

    method MpiSend(source: nat, dst: nat, msg: Msg)
      modifies this
      ensures chans == Enqueue(old(chans), source, dst, msg)
    {
      chans := chans[(source, dst) := (if (source, dst) in chans then chans[(source, dst)] else []) + [msg]];
    }

    /** The loop that sends one packet to everybody else. */
    method SendToOthers(source: nat, msg: Msg)
      modifies this
      ensures chans == EnqueueAll(old(chans), source, ToOthers(source, worldSize, msg))
    {
      for i := 0 to worldSize
        invariant chans == EnqueueAll(old(chans), source, ToOthers(source, i, msg))
      {
        if i != source {
          EnqueueNext(old(chans), source, ToOthers(source, i, msg), Sending(i, msg));
          MpiSend(source, i, msg);
        } else {
          assert ToOthers(source, i + 1, msg) == ToOthers(source, i, msg);
        }
      }
    }

    /** A read or write: the headers go out first, the bodies when the transfer starts. */
    method SendTransferRequest(source: nat, kind: Kind, body: Body)
      requires kind == WRITE || kind == READ
      modifies this
      ensures chans == EnqueueAll(old(chans), source, SendList(source, worldSize, kind, body))
    {
      SendToOthers(source, Header(kind));
      SendToOthers(source, Payload(body));
      EnqueueTwice(old(chans), source,
                   ToOthers(source, worldSize, Header(kind)), ToOthers(source, worldSize, Payload(body)));
    }

    method SendToRank(source: nat, dst: nat, kind: Kind, body: Body)
      modifies this
      ensures chans == EnqueueAll(old(chans), source, ToRank(source, dst, kind, body))
    {
      var header := Sending(dst, Header(kind));
      EnqueueNext(old(chans), source, [], header);
      MpiSend(source, dst, Header(kind));
      if dst != source {
        EnqueueNext(old(chans), source, [header], Sending(dst, Payload(body)));
        MpiSend(source, dst, Payload(body));
      }
    }

    /** A namespace request: header and body rank by rank, the header also to the source. */
    method SendNameRequest(source: nat, kind: Kind, body: Body)
      requires kind != WRITE && kind != READ && kind != TERMINATE
      modifies this
      ensures chans == EnqueueAll(old(chans), source, SendList(source, worldSize, kind, body))
    {
      for i := 0 to worldSize
        invariant chans == EnqueueAll(old(chans), source, HeadersAndBodies(source, i, kind, body))
      {
        SendToRank(source, i, kind, body);
        EnqueueTwice(old(chans), source, HeadersAndBodies(source, i, kind, body), ToRank(source, i, kind, body));
      }
    }

    method SendTerminationRequest(source: nat, unset: Body)
      modifies this
      ensures chans == EnqueueAll(old(chans), source, SendList(source, worldSize, TERMINATE, unset))
    {
      for i := 0 to worldSize
        invariant chans == EnqueueAll(old(chans), source, ToAll(i, Header(TERMINATE)))
      {
        EnqueueNext(old(chans), source, ToAll(i, Header(TERMINATE)), Sending(i, Header(TERMINATE)));
        MpiSend(source, i, Header(TERMINATE));
      }
    }
  }

  lemma ReceiveNext(peer: Peer, me: nat, arrivals: seq<(nat, Msg)>, k: nat)
    requires k < |arrivals|
    ensures ReceiveAll(peer, me, arrivals[..k + 1])
            == Receive(ReceiveAll(peer, me, arrivals[..k]), me, arrivals[k].0, arrivals[k].1)
  {
    assert arrivals[..k + 1][..k] == arrivals[..k];
  }

  /** A peer that has left its loop takes nothing any more. */
  lemma {:induction false} LeftForGood(peer: Peer, me: nat, arrivals: seq<(nat, Msg)>, k: nat)
    requires k <= |arrivals| && !Receives(ReceiveAll(peer, me, arrivals[..k]))
    ensures ReceiveAll(peer, me, arrivals) == ReceiveAll(peer, me, arrivals[..k])
    decreases |arrivals| - k
  {
    if k == |arrivals| {
      assert arrivals[..k] == arrivals;
    } else {
      ReceiveNext(peer, me, arrivals, k);
      LeftForGood(peer, me, arrivals, k + 1);
    }
  }

  /** The receive loop, until it stops or has nothing to receive. */
  method Start(me: nat, arrivals: seq<(nat, Msg)>) returns (peer: Peer)
    ensures peer == ReceiveAll(Peer(Idle, []), me, arrivals)
  {
    ghost var first := Peer(Idle, []);
    var running := true;
    var log: seq<Served> := [];
    var pos := 0;
    assert arrivals[..|arrivals|] == arrivals;
    while running
      invariant 0 <= pos <= |arrivals|
      invariant ReceiveAll(first, me, arrivals[..pos]) == Peer(if running then Idle else Stopped, log)
      decreases running, |arrivals| - pos
    {
      if pos == |arrivals| { return Peer(Idle, log); }
      var (source, request) := arrivals[pos];
      ReceiveNext(first, me, arrivals, pos);
      pos := pos + 1;
      if request.Payload? {
        LeftForGood(first, me, arrivals, pos);
        return Peer(Broken, log);
      } else if request.kind == TERMINATE {
        running := false;
      } else if me != source {
        if pos == |arrivals| { return Peer(AwaitsBody(request.kind, source), log); }
        var (from, packet) := arrivals[pos];
        ReceiveNext(first, me, arrivals, pos);
        pos := pos + 1;
        if packet.Header? {
          LeftForGood(first, me, arrivals, pos);
          return Peer(Broken, log);
        }
        log := log + [Served(request.kind, source, from, packet.body)];
      }
    }
    LeftForGood(first, me, arrivals, pos);
    peer := Peer(Stopped, log);
  }
}
