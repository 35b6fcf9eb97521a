/** The namespace on all peers, down to the messages: each request is one round of the protocol,
    and each peer repeats what its own receive loop has served. */
module MessageRuns {
  import opened NameSpace
  import opened Replication
  import P = PeerProtocol

  /** Channels and receive loops, and the namespace of every peer. */
  datatype Peers = Peers(net: P.Net, reps: seq<Replica>)

  /** A request that arrives at the kernel of `rank`. If its handler tells the others, `moves`
      is the order in which the sends and receives of the round come, and `behind` what each
      receiver has in the memory behind its packet. */
  datatype Arrival = Arrival(rank: nat, op: Op, moves: seq<P.Move>, behind: seq<string>)

  function EventOf(a: Arrival): Event {
    if Replicated(a.op) then Issued(a.rank, a.op, a.behind) else Local(a.rank, a.op)
  }

  function EventsOf(arrivals: seq<Arrival>): seq<Event> {
    seq(|arrivals|, k requires 0 <= k < |arrivals| => EventOf(arrivals[k]))
  }

  /** The request is sent to the other peers. */
  predicate Announces(reps: seq<Replica>, e: Event)
    requires AllWhole(reps)
  {
    e.Issued? && e.source < |reps| && Replicated(e.op) && Tells(reps[e.source], e.op)
  }

  /** The operation that the protocol carries. */
  function Message(r: Replica, source: nat, op: Op): P.Op
    requires Whole(r) && Replicated(op) && Tells(r, op) && InField(PathsOf(r, op))
  {
    P.Op(source, KindOf(op), BodyOf(op, PathsOf(r, op)))
  }

  /** The round runs until nothing is left to send or receive. */
  ghost predicate Delivered(net: P.Net, m: P.Op, p: nat, moves: seq<P.Move>) {
    P.Possible(net, m, p, moves) && P.Finished(P.After(net, m, p, moves), m, p)
  }

  ghost predicate LegalArrival(s: Peers, a: Arrival)
    requires AllWhole(s.reps)
  {
    && LegalEvent(s.reps, EventOf(a))
    && (Announces(s.reps, EventOf(a)) ==>
          Delivered(s.net, Message(s.reps[a.rank], a.rank, a.op), |s.reps|, a.moves))
  }

  function LogOf(net: P.Net, d: nat): seq<P.Served> {
    if d < |net.peers| then net.peers[d].log else []
  }

  /** What rank `d` has served since `before`. */
  function NewlyServed(before: P.Net, after: P.Net, d: nat): seq<P.Served> {
    if |LogOf(before, d)| <= |LogOf(after, d)| then LogOf(after, d)[|LogOf(before, d)|..] else []
  }

  /** A peer repeats what it has served, in order. */
  function ReplayLog(r: Replica, served: seq<P.Served>, behind: string): (after: Replica)
    requires Whole(r)
    ensures Whole(after)
  {
    if served == [] then r
    else
      var last := served[|served| - 1];
      Replay(ReplayLog(r, served[..|served| - 1], behind), last.kind, last.body, behind).0
  }

  /** One request, with all the messages it causes. */
  ghost function Arrive(s: Peers, a: Arrival): (after: Peers)
    requires AllWhole(s.reps) && LegalArrival(s, a)
    ensures |after.reps| == |s.reps| && AllWhole(after.reps)
  {
    var handled := s.reps[a.rank := Handle(s.reps[a.rank], a.op).0];
    if !Announces(s.reps, EventOf(a)) then s.(reps := handled)
    else
      var net := P.After(s.net, Message(s.reps[a.rank], a.rank, a.op), |s.reps|, a.moves);
      Peers(P.NextRound(net),
            seq(|handled|, d requires 0 <= d < |handled| =>
              ReplayLog(handled[d], NewlyServed(s.net, net, d), a.behind[d])))
  }

  /** What rank `d` must be told about an event: the request of another peer, by path. */
  ghost function TellsRank(reps: seq<Replica>, e: Event, d: nat): seq<P.Served>
    requires AllWhole(reps) && LegalEvent(reps, e)
  {
    if Announces(reps, e) && e.source != d then
      var m := Message(reps[e.source], e.source, e.op);
      [P.Served(m.kind, m.source, m.source, m.body)]
    else []
  }

  lemma RoundServes(net: P.Net, m: P.Op, p: nat, moves: seq<P.Move>, d: nat)
    requires P.Quiet(net, p) && m.source < p && d < p && m.kind != P.TERMINATE && Delivered(net, m, p, moves)
    ensures P.Quiet(P.NextRound(P.After(net, m, p, moves)), p)
    ensures LogOf(P.After(net, m, p, moves), d) == LogOf(P.NextRound(P.After(net, m, p, moves)), d)
    ensures NewlyServed(net, P.After(net, m, p, moves), d)
            == if d == m.source then [] else [P.Served(m.kind, m.source, m.source, m.body)]
    ensures LogOf(P.After(net, m, p, moves), d) == LogOf(net, d) + NewlyServed(net, P.After(net, m, p, moves), d)
  {
    P.ProtocolCompletes(net, m, p, moves);
    P.QuietAgain(net, m, p, moves);
    assert P.After(net, m, p, moves).peers[d] == P.Final(net.peers[d].log, m, d);
  }

  lemma ReplaysOne(r: Replica, served: P.Served, behind: string)
    requires Whole(r)
    ensures ReplayLog(r, [served], behind) == Replay(r, served.kind, served.body, behind).0
  {
    assert [served][..0] == [];
  }

  /** Once every message of a request is delivered, each other peer has served it once and the
      source not at all, and what they then repeat is the request as `Issue` has it. */
  lemma DeliveryReplays(s: Peers, a: Arrival, d: nat)
    requires AllWhole(s.reps) && P.Quiet(s.net, |s.reps|) && LegalArrival(s, a) && d < |s.reps|
    ensures P.Quiet(Arrive(s, a).net, |s.reps|)
    ensures Arrive(s, a).reps[d] == Happen(s.reps, EventOf(a))[d]
    ensures LogOf(Arrive(s, a).net, d) == LogOf(s.net, d) + TellsRank(s.reps, EventOf(a), d)
  {
    if Announces(s.reps, EventOf(a)) {
      var m := Message(s.reps[a.rank], a.rank, a.op);
      RoundServes(s.net, m, |s.reps|, a.moves, d);
      ReplaysOne(s.reps[d], P.Served(m.kind, m.source, m.source, m.body), a.behind[d]);
    }
  }

  lemma ArriveIsHappen(s: Peers, a: Arrival)
    requires AllWhole(s.reps) && s.reps != [] && P.Quiet(s.net, |s.reps|) && LegalArrival(s, a)
    ensures P.Quiet(Arrive(s, a).net, |s.reps|)
    ensures Arrive(s, a).reps == Happen(s.reps, EventOf(a))
  {
    forall d: nat | d < |s.reps|
      ensures P.Quiet(Arrive(s, a).net, |s.reps|) && Arrive(s, a).reps[d] == Happen(s.reps, EventOf(a))[d]
    {
      DeliveryReplays(s, a, d);
    }
    DeliveryReplays(s, a, 0);
  }

  /** Whatever request is legal for the peers, its messages can be delivered. */
  lemma CanArrive(s: Peers, rank: nat, op: Op, behind: seq<string>) returns (moves: seq<P.Move>)
    requires AllWhole(s.reps) && P.Quiet(s.net, |s.reps|)
    requires LegalEvent(s.reps, EventOf(Arrival(rank, op, [], behind)))
    ensures LegalArrival(s, Arrival(rank, op, moves, behind))
  {
    moves := [];
    if Announces(s.reps, Issued(rank, op, behind)) {
      var m := Message(s.reps[rank], rank, op);
      moves := P.ProtocolProgresses(s.net, m, |s.reps|, []);
      assert Delivered(s.net, m, |s.reps|, moves);
    }
  }

  // ---- runs ----

  ghost predicate LegalArrivals(s: Peers, arrivals: seq<Arrival>)
    requires AllWhole(s.reps)
    decreases |arrivals|
  {
    arrivals == [] || (LegalArrival(s, arrivals[0]) && LegalArrivals(Arrive(s, arrivals[0]), arrivals[1..]))
  }

  ghost function AfterArrivals(s: Peers, arrivals: seq<Arrival>): (after: Peers)
    requires AllWhole(s.reps) && LegalArrivals(s, arrivals)
    ensures |after.reps| == |s.reps| && AllWhole(after.reps)
    decreases |arrivals|
  {
    if arrivals == [] then s else AfterArrivals(Arrive(s, arrivals[0]), arrivals[1..])
  }

  /** What rank `d` must have been told over a run: the requests of the others, in order. */
  ghost function Told(reps: seq<Replica>, events: seq<Event>, d: nat): seq<P.Served>
    requires AllWhole(reps) && LegalEvents(reps, events)
    decreases |events|
  {
    if events == [] then [] else TellsRank(reps, events[0], d) + Told(Happen(reps, events[0]), events[1..], d)
  }

  lemma EventsOfRest(arrivals: seq<Arrival>)
    requires arrivals != []
    ensures EventsOf(arrivals) != [] && EventsOf(arrivals)[0] == EventOf(arrivals[0])
    ensures EventsOf(arrivals)[1..] == EventsOf(arrivals[1..])
  {
  }

  /** The messages carry out the run: whatever the order of sends and receives within the
      rounds, the peers end up as if each had taken part in every request at once, no message is
      left over, and each peer has served exactly the requests of the others, in order. */
  lemma {:induction false} MessagesRefine(s: Peers, arrivals: seq<Arrival>, d: nat)
    requires AllWhole(s.reps) && P.Quiet(s.net, |s.reps|) && LegalArrivals(s, arrivals) && d < |s.reps|
    ensures LegalEvents(s.reps, EventsOf(arrivals))
    ensures AfterArrivals(s, arrivals).reps == AfterEvents(s.reps, EventsOf(arrivals))
    ensures P.Quiet(AfterArrivals(s, arrivals).net, |s.reps|)
    ensures LogOf(AfterArrivals(s, arrivals).net, d) == LogOf(s.net, d) + Told(s.reps, EventsOf(arrivals), d)
    decreases |arrivals|
  {
    if arrivals == [] {
      assert EventsOf(arrivals) == [];
      assert LogOf(s.net, d) + [] == LogOf(s.net, d);
    } else {
      var next := Arrive(s, arrivals[0]);
      EventsOfRest(arrivals);
      ArriveIsHappen(s, arrivals[0]);
      DeliveryReplays(s, arrivals[0], d);
      MessagesRefine(next, arrivals[1..], d);
      ToldInOrder(LogOf(s.net, d), TellsRank(s.reps, EventOf(arrivals[0]), d),
                  Told(next.reps, EventsOf(arrivals[1..]), d));
    }
  }

  lemma ToldInOrder(log: seq<P.Served>, first: seq<P.Served>, rest: seq<P.Served>)
    ensures (log + first) + rest == log + (first + rest)
  {
  }

  /** All peers right after mounting, with nothing in flight. */
  function MountedPeers(p: nat): Peers {
    Peers(P.Net(0, map[], seq(p, _ => P.Peer(P.Idle, [])), seq(p, _ => [])), MountedEverywhere(p))
  }

  /** Agreement by messages: after any run from mounting, with any order of sends and receives
      within the rounds, all peers have the same tree and no flag is up. */
  lemma AgreementByMessages(p: nat, arrivals: seq<Arrival>)
    requires p > 0 && AllWhole(MountedEverywhere(p)) && LegalArrivals(MountedPeers(p), arrivals)
    ensures Agree(AfterArrivals(MountedPeers(p), arrivals).reps)
    ensures P.Quiet(AfterArrivals(MountedPeers(p), arrivals).net, p)
  {
    MountedAgree(p);
    MessagesRefine(MountedPeers(p), arrivals, 0);
    ReplicasAgree(MountedEverywhere(p), EventsOf(arrivals));
  }
}
